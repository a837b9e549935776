/**
 The serialiser of gitea_login.py, a second copy of login.py's. It is modelled
 the way it runs, as a loop that appends one line per cookie to a list that
 starts with the header, and is proved to compute the same text as
 `Login.Format` on every input.
 */
module GiteaLogin {
  import opened Wrappers
  import opened Text
  import Decimal
  import Login

  /** `convert_to_netscape_format` of gitea_login.py. */
  method ConvertToNetscapeFormat(cookies: seq<Login.Cookie>) returns (text: string)
    ensures text == Login.Format(cookies)
  {
    var lines := [Login.Header];
    for k := 0 to |cookies|
      invariant lines == [Login.Header] + Login.CookieLines(cookies[..k])
    {
      var cookie := cookies[k];
      var domain := cookie.domain;
      var flag := if |domain| > 0 && domain[0] == '.' then "TRUE" else "FALSE";
      var path := cookie.path;
      var secure := if cookie.secure then "TRUE" else "FALSE";
      var expires := match cookie.expires
        case Some(x) => if x > 0.0 then Decimal.FromNat(x.Floor) else "0"
        case None => "0";
      var name := cookie.name;
      var value := cookie.value;
      var line := Join([domain, flag, path, secure, expires, name, value], '\t');
      assert line == Login.CookieLine(cookie);
      assert Login.CookieLines(cookies[..k + 1]) == Login.CookieLines(cookies[..k]) + [line];
      lines := lines + [line];
    }
    assert cookies[..|cookies|] == cookies;
    text := Join(lines, '\n');
  }
}
