# Netscape cookie-file serialiser

A Dafny model of `convert_to_netscape_format`, the one piece of logic in the
login helper scripts `login.py` and `gitea_login.py`. After a person logs in
through a browser, the scripts read the browser context's cookies and write
them as a Netscape/Mozilla cookie file for git's `http.cookieFile`. The
serialiser takes the list of cookie records (domain, path, secure, optional
expires, name, value) and produces:

- the header line `# Netscape HTTP Cookie File`;
- then one line per cookie, in input order with duplicates kept, of seven
  tab-separated columns: domain, include-subdomains flag, path, secure,
  expiration, name, value;
- with all lines joined by `"\n"`, so there is no trailing newline of the
  serialiser's own making.

The flag column is `TRUE` exactly when the domain string begins with `.`. The
secure column mirrors the secure boolean. The expiration column is the
truncated timestamp when one is present and positive, and `0` otherwise.

Files:

- `wrappers.dfy`: `Option`, used for the optional `expires` key and for
  parse failures.
- `text.dfy`: `Join` and `Split` with the meaning of Python's `sep.join` and
  `str.split(sep)` for a one-character separator. Also proves that splitting
  undoes joining when no part holds the separator.
- `decimal.dfy`: `str(n)` for a non-negative integer and its inverse.
- `login.dfy`: the cookie record, the column renderers, the line, `Format`
  (login.py's function), and lemmas on how the output splits into lines and
  columns.
- `reader.dfy`: a reader for the cookie-file text. It is the partner of the
  serialiser in the round-trip property.
- `gitea_login.dfy`: gitea_login.py's copy, modelled as the loop it is. It is
  proved to equal `Login.Format` on every input, so every property of
  `Login.Format` holds of it too.
- `scenarios.dfy`: worked inputs, each pinned down column by column.

`expires` is a Python float, modelled as `Option<real>`. The column uses
`Floor`, which equals Python's `int()` truncation for the positive values the
source renders. The contract states truncation independently, as
`n <= x < n + 1`.

## Model

| member | source | states |
|---|---|---|
| Login.ExpiresField | login.py:67 | the expiration column is a canonical decimal numeral; its value is the timestamp truncated toward zero when `expires` is present and positive, and 0 when it is absent or not positive |
| Login.FormatHeader | login.py:59-73 | the output begins with the header; with no cookies it is exactly the header and nothing else; with cookies, a newline follows the header |
| Login.SplitLine | login.py:55-71 | when the record's strings hold no tab, a cookie line splits on tabs into exactly seven columns: domain, flag, path, secure, expiration, name, value |
| Login.FormatSnoc | login.py:60-73 | adding a cookie at the end of the input adds exactly one newline and that cookie's line to the end of the output, and changes nothing before it |
| Login.FormatIsHeaderThenLines | login.py:59-73 | the output equals an independent definition: the header, then for each cookie in order a newline followed by its line |
| Login.FirstLineIsHeader | login.py:59 | for every input, even one whose fields contain newlines, the first line of the output is the header |
| Login.SplitFormatLines | login.py:59-73 | when no field holds a newline, splitting the output on newlines gives exactly the header followed by the cookie lines, in input order |
| Login.SplitFormat | login.py:59-73 | when no field holds a newline, the output splits into exactly 1 + n lines; line 0 is the header and line i+1 renders cookie i, in input order with duplicates kept |
| Login.TrailingNewline | login.py:73 | the output ends with a newline if and only if there is a cookie and the last cookie's value itself ends with one |
| Decimal.FromNat | login.py:67 | `str(n)` gives a canonical numeral (digits only, no leading zero) whose value is n |
| Decimal.FromNatToNat | login.py:67 | every canonical numeral is `str` of its own value, so the rendering is a bijection onto canonical numerals |
| CookieFileReader.BoolColumnsRoundTrip | login.py:64-66 | the flag column reads back as "domain starts with a dot", and the secure column as the secure boolean |
| CookieFileReader.ParseCookieLine | login.py:61-71 | a rendered line with no tab in its strings reads back as an entry that describes the cookie in every column |
| CookieFileReader.ParseCookieLines | login.py:60-72 | the list of rendered lines reads back as one describing entry per cookie, in order |
| CookieFileReader.ParseFormat | login.py:54-73 | round trip: when no field holds a tab or newline, reading the output recovers, in order, each cookie's domain, path, secure, name and value exactly, its include-subdomains flag and its truncated expiry |
| CookieFileReader.DescribesUnique | login.py:61-69 | the entry that describes a cookie is unique, so the round trip determines every column |
| GiteaLogin.ConvertToNetscapeFormat | gitea_login.py:9-28 | the loop that appends one line per cookie after the header returns the same text as login.py's function on every input, so every property stated above for `Login.Format` (header first, 1 + n lines, seven columns, flag, secure and expiry rules, round trip) holds of gitea_login.py's copy too |
| Scenarios.TruncatedExpiry | login.py:67 | the expiry 1999999999.7 is rendered `1999999999`: truncated, not rounded |
| Scenarios.DotDomainSecureLine | login.py:64-71 | a secure cookie for `.example.com` expiring at 1999999999.7 has the columns `.example.com`, `TRUE`, `/`, `TRUE`, `1999999999`, `sess`, `abc123`, and its line splits on tabs into exactly those |
| Scenarios.DotDomainSecureCookie | login.py:59-73 | that one-cookie file is exactly the header line and the cookie's line |
| Scenarios.BareDomainSessionCookie | login.py:64-67 | a session cookie that is not secure, for `example.com`, gets flag `FALSE`, secure `FALSE` and expiration `0` |

## Left out

- Browser automation (launching Chromium, opening the page, reading `context.cookies()`, closing the browser): these are calls into the Playwright library. The cookie list is the model's input.
- The blocking `input()` gate and every `print`: console I/O.
- Writing the output file and creating `~/.cookies` at import time: filesystem I/O. The one decision there, skipping the write when the cookie list is empty, is not modelled.
- `set_git_global_cookie_file`: never called, and it only runs the external `git` command.
- Missing required keys (`domain`, `path`, `secure`, `name`, `value`), which raise `KeyError` in Python: the record type makes them always present. Only `expires` is optional.
- Float NaN and infinities: `expires` is a finite real. NaN fails the `> 0` test and would render `0`. An infinite expiry would make `int()` raise in Python; no such value exists in the model.
- An unconditional "never ends with a newline": it is false when the last cookie's value ends with a newline. `Login.TrailingNewline` states the exact condition instead.
- Line and column counts hold only when fields are free of newlines and tabs. A field holding one would add extra lines or columns; the source does not escape them. `Login.FirstLineIsHeader` needs no such condition.
- Formatting the same input twice gives the same text because `Login.Format` is a function. No separate member states it.
