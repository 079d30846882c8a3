/** Optional values, results, and the error kinds the Python code raises. */
module Results {

  datatype Option<+T> = None | Some(value: T)

  datatype Result<+R> = Success(value: R) | Failure(error: Error)

  /** The exceptions of the backends, one constructor per raise site kind. */
  datatype Error =
    | InvalidDoi(input: string)             // DOIError("Invalid DOI: ...")
    | InvalidArxivId                         // ValueError("Invalid arXiv ID")
    | InvalidPmid                            // ValueError("Invalid PMID")
    | InvalidUrl                             // ValueError("Invalid IPv6 URL") from urlparse
    | ArxivQueryFailed(status: int)          // DOIError("arXiv query failed: HTTP ...")
    | PmidConversionFailed(status: int)      // DOIError("PubMed ID conversion failed: HTTP ...")
    | NoDoiForArxiv(id: string)              // DOIError("No DOI found for arXiv id: ...")
    | CrossrefLookupFailed(input: string)    // DOIError("Invalid DOI and Crossref lookup failed for: ...")
    | FetchFailed(doi: string, status: int, fallbackStatus: Option<int>)
                                             // DOIError("Failed to fetch DOI ...")

  /** An HTTP response, as far as the backends look at it. */
  datatype Response = Response(status: int, text: string)

  /** Python truthiness of an optional string: None and "" are both falsy. */
  predicate Truthy(o: Option<string>) {
    o.Some? && o.value != ""
  }
}
