/** Worked inputs for the serialiser, each pinned down column by column. */
module Scenarios {
  import opened Wrappers
  import opened Text
  import Decimal
  import opened Login

  /** A positive fractional expiry is truncated, not rounded. */
  lemma TruncatedExpiry()
    ensures ExpiresField(Some(1999999999.7)) == "1999999999"
  {
  }

  const DotDomainCookie := Cookie(".example.com", "/", true, Some(1999999999.7), "sess", "abc123")

  /** The columns of a secure cookie for a dot-prefixed domain with a fractional expiry. */
  lemma DotDomainSecureLine()
    ensures Fields(DotDomainCookie) == [".example.com", "TRUE", "/", "TRUE", "1999999999", "sess", "abc123"]
    ensures Split(CookieLine(DotDomainCookie), Tab) == Fields(DotDomainCookie)
  {
    TruncatedExpiry();
    SplitLine(DotDomainCookie);
  }

  /** Its file is the header and that one line. */
  lemma DotDomainSecureCookie()
    ensures Split(Format([DotDomainCookie]), Newline) == [Header, CookieLine(DotDomainCookie)]
  {
    OneCookieFile(DotDomainCookie);
  }

  lemma OneCookieFile(c: Cookie)
    requires FieldFree(c, Newline)
    ensures Split(Format([c]), Newline) == [Header, CookieLine(c)]
  {
    SplitFormatLines([c]);
    assert CookieLines([c]) == [CookieLine(c)];
  }

  /** A session cookie, not secure, for a bare domain: FALSE, FALSE and "0". */
  lemma BareDomainSessionCookie()
    ensures var c := Cookie("example.com", "/", false, None, "id", "v");
      Split(CookieLine(c), Tab) == ["example.com", "FALSE", "/", "FALSE", "0", "id", "v"]
  {
    SplitLine(Cookie("example.com", "/", false, None, "id", "v"));
  }
}
