/**
 * `is_valid_url`: a URL is accepted when Python's `urlparse` splits it into a
 * non-empty scheme and a non-empty network location. `urlparse` and `urljoin`
 * are library code outside this model; they enter as parameters.
 */
module UrlValidator {
  import opened Wrappers

  /** The two components of a parsed URL that the validator inspects. */
  datatype UrlParts = UrlParts(scheme: string, netloc: string)

  /** `urlparse`: `None` stands for the call raising an exception. */
  type Parser = string -> Option<UrlParts>

  /** `urljoin(base, path)`: the resolved URL, or `None` when the call raises. */
  type Joiner = (string, string) -> Option<string>

  /**
   * The URL is valid exactly when parsing succeeds with both a scheme and a
   * network location; a parse failure yields `false` instead of an error.
   */
  function IsValidUrl(url: string, parse: Parser): (valid: bool)
    ensures parse(url).None? ==> !valid
    ensures valid ==> parse(url).value.scheme != "" && parse(url).value.netloc != ""
    ensures parse(url).Some? && parse(url).value.scheme != "" && parse(url).value.netloc != "" ==> valid
  {
    match parse(url)
    case None => false
    case Some(parts) => parts.scheme != "" && parts.netloc != ""
  }
}
