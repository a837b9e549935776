/**
 The cookie serialiser of login.py: a list of browser cookie records rendered
 in the Netscape/Mozilla cookie-file text format that git's `http.cookieFile`
 reads. A fixed header line, then one line of seven tab-separated fields per
 cookie, all lines joined (not terminated) by newlines.
 */
module Login {
  import opened Wrappers
  import opened Text
  import Decimal

  /**
   A cookie record as the browser context reports it. Every key but `expires`
   is always present; `expires` is a timestamp in seconds, absent for a
   session cookie.
   */
  datatype Cookie = Cookie(
    domain: string,
    path: string,
    secure: bool,
    expires: Option<real>,
    name: string,
    value: string)

  /** The first line of every cookie file written. */
  const Header: string := "# Netscape HTTP Cookie File"

  const Tab: char := '\t'
  const Newline: char := '\n'

  /** `domain.startswith('.')`. */
  predicate StartsWithDot(domain: string)
  {
    |domain| > 0 && domain[0] == '.'
  }

  /** `int(x)` on a float: `n` is `x` truncated toward zero. */
  predicate Truncates(x: real, n: int)
  {
    if x >= 0.0 then n as real <= x < n as real + 1.0
    else n as real - 1.0 < x <= n as real
  }

  /**
   The expiry number a cookie's line must carry: the truncated timestamp when
   one is present and positive, and 0 (a session cookie) otherwise.
   */
  predicate RendersExpiry(expires: Option<real>, n: nat)
  {
    match expires
    case Some(x) => if x > 0.0 then Truncates(x, n) else n == 0
    case None => n == 0
  }

  /** The include-subdomains flag column. */
  function FlagField(domain: string): string
  {
    if StartsWithDot(domain) then "TRUE" else "FALSE"
  }

  /** The secure column. */
  function SecureField(secure: bool): string
  {
    if secure then "TRUE" else "FALSE"
  }

  /** The expiration column: a canonical decimal numeral for the expiry `RendersExpiry` demands. */
  function ExpiresField(expires: Option<real>): (r: string)
    ensures Decimal.IsNumeral(r)
    ensures RendersExpiry(expires, Decimal.ToNat(r))
  {
    match expires
    case Some(x) =>
      if x > 0.0 then Decimal.FromNat(x.Floor) else "0"
    case None => "0"
  }

  /** The seven columns of a cookie's line, in file order. */
  function Fields(c: Cookie): seq<string>
  {
    [c.domain, FlagField(c.domain), c.path, SecureField(c.secure),
     ExpiresField(c.expires), c.name, c.value]
  }

  /** One cookie's line: its seven columns with a single tab between neighbours. */
  function CookieLine(c: Cookie): string
  {
    Join(Fields(c), Tab)
  }

  /** The cookie lines in input order, one per record, duplicates kept. */
  function CookieLines(cookies: seq<Cookie>): seq<string>
  {
    seq(|cookies|, i requires 0 <= i < |cookies| => CookieLine(cookies[i]))
  }

  /** `convert_to_netscape_format`: the header line and the cookie lines, joined by newlines. */
  function Format(cookies: seq<Cookie>): string
  {
    Join([Header] + CookieLines(cookies), Newline)
  }

  /**
   The output begins with the header line. With no cookies it is the header
   and nothing else; otherwise a newline follows the header.
   */
  lemma FormatHeader(cookies: seq<Cookie>)
    ensures |Format(cookies)| >= |Header| && Format(cookies)[..|Header|] == Header
    ensures |cookies| == 0 ==> Format(cookies) == Header
    ensures |cookies| > 0 ==> |Format(cookies)| > |Header| && Format(cookies)[|Header|] == Newline
  {
  }

  /** No string field of any cookie holds `ch`. */
  predicate FieldsFree(cookies: seq<Cookie>, ch: char)
  {
    forall i :: 0 <= i < |cookies| ==> FieldFree(cookies[i], ch)
  }

  predicate FieldFree(c: Cookie, ch: char)
  {
    ch !in c.domain && ch !in c.path && ch !in c.name && ch !in c.value
  }

  /** The rendered columns never hold a tab or a newline of their own making. */
  lemma RenderedColumnsClean(c: Cookie, ch: char)
    requires ch == Tab || ch == Newline
    ensures ch !in FlagField(c.domain) && ch !in SecureField(c.secure)
    ensures ch !in ExpiresField(c.expires)
  {
  }

  /**
   Splitting a cookie's line on tabs gives back its seven columns in the order
   domain, flag, path, secure, expiration, name, value, provided its own
   strings hold no tab.
   */
  lemma SplitLine(c: Cookie)
    requires FieldFree(c, Tab)
    ensures Split(CookieLine(c), Tab) == Fields(c)
    ensures |Split(CookieLine(c), Tab)| == 7
  {
    RenderedColumnsClean(c, Tab);
    SplitJoin(Fields(c), Tab);
  }

  /** Adding one cookie at the end adds one newline and that cookie's line, and nothing else. */
  lemma FormatSnoc(cookies: seq<Cookie>, c: Cookie)
    ensures Format(cookies + [c]) == Format(cookies) + [Newline] + CookieLine(c)
  {
    assert CookieLines(cookies + [c]) == CookieLines(cookies) + [CookieLine(c)];
    assert [Header] + CookieLines(cookies + [c]) == ([Header] + CookieLines(cookies)) + [CookieLine(c)];
    JoinSnoc([Header] + CookieLines(cookies), CookieLine(c), Newline);
  }

  /**
   An independent reading of the format: the header, then for each cookie in
   turn a newline followed by its line.
   */
  function HeaderThenLines(cookies: seq<Cookie>): string
    decreases |cookies|
  {
    if |cookies| == 0 then Header
    else HeaderThenLines(cookies[..|cookies| - 1]) + [Newline] + CookieLine(cookies[|cookies| - 1])
  }

  lemma {:induction false} FormatIsHeaderThenLines(cookies: seq<Cookie>)
    ensures Format(cookies) == HeaderThenLines(cookies)
    decreases |cookies|
  {
    if |cookies| > 0 {
      var init := cookies[..|cookies| - 1];
      FormatIsHeaderThenLines(init);
      FormatSnoc(init, cookies[|cookies| - 1]);
      assert init + [cookies[|cookies| - 1]] == cookies;
    }
  }

  /** The first line of the output is the header, whatever the cookies hold. */
  lemma FirstLineIsHeader(cookies: seq<Cookie>)
    ensures Split(Format(cookies), Newline)[0] == Header
  {
    var lines := [Header] + CookieLines(cookies);
    if |cookies| == 0 {
      assert lines == [Header];
      SplitSepFree(Header, Newline);
    } else {
      assert lines[1..] == CookieLines(cookies);
      SplitCons(Header, Newline, Join(CookieLines(cookies), Newline));
    }
  }

  /** The lines of the output, as a sequence: the header, then the cookie lines. */
  lemma SplitFormatLines(cookies: seq<Cookie>)
    requires FieldsFree(cookies, Newline)
    ensures Split(Format(cookies), Newline) == [Header] + CookieLines(cookies)
  {
    var lines := [Header] + CookieLines(cookies);
    forall i | 0 <= i < |lines|
      ensures Newline !in lines[i]
    {
      if i > 0 {
        var c := cookies[i - 1];
        assert FieldFree(c, Newline);
        RenderedColumnsClean(c, Newline);
        JoinAvoids(Fields(c), Tab, Newline);
      }
    }
    SplitJoin(lines, Newline);
  }

  /**
   With no newline inside any field, the output has exactly one line more than
   there are cookies: the header, then line i+1 renders cookie i, in input
   order and with duplicates kept.
   */
  lemma SplitFormat(cookies: seq<Cookie>)
    requires FieldsFree(cookies, Newline)
    ensures |Split(Format(cookies), Newline)| == |cookies| + 1
    ensures Split(Format(cookies), Newline)[0] == Header
    ensures forall i :: 0 <= i < |cookies| ==>
              Split(Format(cookies), Newline)[i + 1] == CookieLine(cookies[i])
  {
    SplitFormatLines(cookies);
  }

  /**
   The output ends with a newline exactly when there is a cookie and the last
   cookie's value itself ends with one: lines are joined, never terminated.
   */
  lemma TrailingNewline(cookies: seq<Cookie>)
    ensures var text := Format(cookies);
      text[|text| - 1] == Newline <==>
        (|cookies| > 0 && var v := cookies[|cookies| - 1].value; |v| > 0 && v[|v| - 1] == Newline)
  {
    if |cookies| > 0 {
      var init := cookies[..|cookies| - 1];
      var c := cookies[|cookies| - 1];
      FormatSnoc(init, c);
      assert init + [c] == cookies;
      var f := Fields(c);
      JoinSnoc(f[..6], c.value, Tab);
      assert f[..6] + [c.value] == f;
    }
  }
}
