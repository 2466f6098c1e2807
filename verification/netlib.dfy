/**
 The three calls the filter makes into Go's net package, whose source is not
 part of this model: `net.ParseIP`, `net.ParseCIDR` and `net.SplitHostPort`.
 They are carried as function values of a `Library`, so every property proved
 about the filter holds for whatever those parsers do; only the shapes of their
 results are fixed here.
 */
module NetLib {
  import opened Ip

  datatype Option<T> = None | Some(value: T)

  /**
   The outcome of `net.SplitHostPort`: the host and port, or an error whose
   text contains "missing port in address", or any other error.
   */
  datatype SplitResult = HostPort(host: string, port: string) | MissingPort | OtherError

  datatype Library = Library(
    parseIP: string -> Option<Ip16>,        // nil result is None
    parseCIDR: string -> Option<IpNet>,     // non-nil error is None
    splitHostPort: string -> SplitResult
  )
}
