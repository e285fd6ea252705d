/**
  The characters of HTTP messages, and the grammar of request targets, as the strict build of the parser sees them.
 */
module HttpChars {

  type octet = c: char | c as int < 256 witness '\0'

  const CR: octet := '\r'
  const LF: octet := '\n'

  /** Sets bit 5, which turns letters into lower case (and some other characters into others). */
  function Lower(c: octet): octet {
    var v := c as int;
    if (v / 32) % 2 == 0 then (v + 32) as char else c
  }

  predicate IsAlpha(c: octet) {
    'a' <= Lower(c) <= 'z'
  }

  predicate IsNum(c: octet) {
    '0' <= c <= '9'
  }

  function Digit(c: octet): (d: nat)
    requires IsNum(c)
    ensures d <= 9
  {
    c as int - '0' as int
  }

  /** The value of a hexadecimal digit, -1 for other characters. The table leaves out bytes above 127: they are zeros. */
  function Unhex(c: octet): (d: int)
    ensures -1 <= d < 16
  {
    if IsNum(c) then Digit(c)
    else if 'A' <= c <= 'F' then c as int - 'A' as int + 10
    else if 'a' <= c <= 'f' then c as int - 'a' as int + 10
    else if c as int < 128 then -1
    else 0
  }

  /** The lower-case form of a token character, or NUL for others. */
  function Token(c: octet): octet {
    if 'A' <= c <= 'Z' then (c as int + 32) as char
    else if 'a' <= c <= 'z' || IsNum(c) || c in "!#$%&'*+-.^_`|~" then c
    else '\0'
  }

  /** What header values may contain. */
  predicate IsHeaderChar(c: octet) {
    c == CR || c == LF || c == '\t' || (c as int > 31 && c as int != 127)
  }

  predicate IsUrlChar(c: octet) {
    33 <= c as int <= 126 && c != '#' && c != '?'
  }

  predicate IsUserinfoChar(c: octet) {
    IsAlpha(c) || IsNum(c) || c in "-_.!~*'()%;:&=+$,"
  }
}
