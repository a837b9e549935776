/**
 A reader for the Netscape cookie-file text, the consumer's side of the
 format: the partner against which the serialiser's output is checked. It
 accepts a file whose first line is the header and whose every other line has
 seven tab-separated columns with TRUE/FALSE flags and a decimal expiry.
 */
module CookieFileReader {
  import opened Wrappers
  import opened Text
  import Decimal
  import opened Login

  /** One parsed line of a cookie file. */
  datatype Entry = Entry(
    domain: string,
    includeSubdomains: bool,
    path: string,
    secure: bool,
    expires: nat,
    name: string,
    value: string)

  /** A TRUE/FALSE column. */
  function ParseBool(s: string): (r: Option<bool>)
  {
    if s == "TRUE" then Some(true)
    else if s == "FALSE" then Some(false)
    else None
  }

  /** A non-empty run of decimal digits. */
  function ParseNat(s: string): Option<nat>
  {
    if |s| > 0 && Decimal.AllDigits(s) then Some(Decimal.ToNat(s)) else None
  }

  function ParseLine(line: string): Option<Entry>
  {
    var f := Split(line, Tab);
    if |f| != 7 then None
    else
      match (ParseBool(f[1]), ParseBool(f[3]), ParseNat(f[4]))
      case (Some(sub), Some(sec), Some(exp)) => Some(Entry(f[0], sub, f[2], sec, exp, f[5], f[6]))
      case _ => None
  }

  function ParseLines(lines: seq<string>): Option<seq<Entry>>
    decreases |lines|
  {
    if |lines| == 0 then Some([])
    else
      match (ParseLine(lines[0]), ParseLines(lines[1..]))
      case (Some(e), Some(es)) => Some([e] + es)
      case _ => None
  }

  /** A whole file: the header line, then one entry per line. */
  function ParseFile(text: string): Option<seq<Entry>>
  {
    var lines := Split(text, Newline);
    if lines[0] != Header then None else ParseLines(lines[1..])
  }

  /** The entry a reader must recover for a cookie: every column as the cookie's record demands. */
  predicate Describes(e: Entry, c: Cookie)
  {
    && e.domain == c.domain
    && (e.includeSubdomains <==> StartsWithDot(c.domain))
    && e.path == c.path
    && e.secure == c.secure
    && RendersExpiry(c.expires, e.expires)
    && e.name == c.name
    && e.value == c.value
  }

  /** The flag and secure columns read back as the booleans they render. */
  lemma BoolColumnsRoundTrip(domain: string, secure: bool)
    ensures ParseBool(FlagField(domain)) == Some(StartsWithDot(domain))
    ensures ParseBool(SecureField(secure)) == Some(secure)
  {
  }

  /** A rendered cookie line reads back as an entry describing that cookie. */
  lemma ParseCookieLine(c: Cookie)
    requires FieldFree(c, Tab)
    ensures ParseLine(CookieLine(c)).Some?
    ensures Describes(ParseLine(CookieLine(c)).value, c)
  {
    SplitLine(c);
    BoolColumnsRoundTrip(c.domain, c.secure);
  }

  lemma {:induction false} ParseCookieLines(cookies: seq<Cookie>)
    requires FieldsFree(cookies, Tab)
    ensures var r := ParseLines(CookieLines(cookies));
      && r.Some?
      && |r.value| == |cookies|
      && forall i :: 0 <= i < |cookies| ==> Describes(r.value[i], cookies[i])
    decreases |cookies|
  {
    var ls := CookieLines(cookies);
    if |cookies| > 0 {
      assert ls[1..] == CookieLines(cookies[1..]);
      ParseCookieLines(cookies[1..]);
      ParseCookieLine(cookies[0]);
    }
  }

  /**
   Round trip: when no field holds a tab or a newline, reading the serialised
   file recovers one entry per cookie, in order, carrying each cookie's domain,
   path, secure flag, name and value exactly, the include-subdomains flag of
   its domain, and its truncated expiry.
   */
  lemma ParseFormat(cookies: seq<Cookie>)
    requires FieldsFree(cookies, Tab) && FieldsFree(cookies, Newline)
    ensures var r := ParseFile(Format(cookies));
      && r.Some?
      && |r.value| == |cookies|
      && forall i :: 0 <= i < |cookies| ==> Describes(r.value[i], cookies[i])
  {
    SplitFormatLines(cookies);
    var lines := Split(Format(cookies), Newline);
    assert lines[1..] == CookieLines(cookies);
    ParseCookieLines(cookies);
  }

  /** The entry a cookie is read back as is unique: `Describes` pins down every column. */
  lemma DescribesUnique(e1: Entry, e2: Entry, c: Cookie)
    requires Describes(e1, c) && Describes(e2, c)
    ensures e1 == e2
  {
  }
}
