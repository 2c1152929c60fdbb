/** The string escaping of `JSONWriter.string` and `JSONWriter.unicode`
    (identical in both revisions), together with the decoding of a JSON
    string body as section 7 of RFC 8259 defines it, which undoes it. */
module Escape {
  import opened Wrappers

  /** The writer's `hex` table: upper-case hexadecimal digits. */
  const HexDigits: string := "0123456789ABCDEF"

  /** `Character.isISOControl`: U+0000..U+001F and U+007F..U+009F. */
  predicate IsISOControl(c: char) {
    c <= '\U{1F}' || ('\U{7F}' <= c <= '\U{9F}')
  }

  /** The digits `unicode` emits for a 16-bit value `n`: each step takes
      bits 12..15 (`(n & 0xf000) >> 12`) and shifts `n` left by four. */
  function ShiftedDigits(n: nat, count: nat): (r: string)
    ensures |r| == count
    ensures forall k :: 0 <= k < |r| ==> r[k] in HexDigits
    decreases count
  {
    if count == 0 then ""
    else [HexDigits[(n % 0x10000) / 0x1000]] + ShiftedDigits(n * 16, count - 1)
  }

  /** Value of one hexadecimal digit, either case (RFC 8259 accepts both). */
  function HexDigitValue(c: char): Option<nat> {
    if '0' <= c <= '9' then Some(c as int - '0' as int)
    else if 'A' <= c <= 'F' then Some(c as int - 'A' as int + 10)
    else if 'a' <= c <= 'f' then Some(c as int - 'a' as int + 10)
    else None
  }

  predicate AllHex(s: string) {
    forall k :: 0 <= k < |s| ==> HexDigitValue(s[k]).Some?
  }

  /** The number a string of hexadecimal digits denotes. */
  function HexValue(s: string): nat
    requires AllHex(s)
  {
    if |s| == 0 then 0 else HexValue(s[..|s| - 1]) * 16 + HexDigitValue(s[|s| - 1]).value
  }

  lemma HexDigitsValues(d: nat)
    requires d < 16
    ensures HexDigitValue(HexDigits[d]) == Some(d)
  {
  }

  lemma DivMod4096(n: int, q: int, r: int)
    requires 0 <= r < 0x1000 && n == q * 0x1000 + r
    ensures n / 0x1000 == q && n % 0x1000 == r
  {
  }

  lemma DivMod65536(n: int, q: int, r: int)
    requires 0 <= r < 0x10000 && n == q * 0x10000 + r
    ensures n % 0x10000 == r
  {
  }

  /** A 16-bit value as its four nibbles. */
  lemma NibbleSplit(n: nat) returns (a: nat, b: nat, c: nat, d: nat)
    requires n < 0x10000
    ensures a < 16 && b < 16 && c < 16 && d < 16
    ensures n == a * 0x1000 + b * 0x100 + c * 16 + d
  {
    a := n / 0x1000;
    var r1 := n % 0x1000;
    b := r1 / 0x100;
    var r2 := r1 % 0x100;
    c := r2 / 16;
    d := r2 % 16;
  }

  /** The four digits emitted for a 16-bit value are its nibbles, most
      significant first. */
  lemma ShiftedNibbles(n: nat, a: nat, b: nat, c: nat, d: nat)
    requires a < 16 && b < 16 && c < 16 && d < 16
    requires n == a * 0x1000 + b * 0x100 + c * 16 + d
    ensures ShiftedDigits(n, 4) == [HexDigits[a], HexDigits[b], HexDigits[c], HexDigits[d]]
  {
    var m1 := n * 16;
    var m2 := m1 * 16;
    var m3 := m2 * 16;
    assert (n % 0x10000) / 0x1000 == a by {
      DivMod65536(n, 0, n);
      DivMod4096(n, a, b * 0x100 + c * 16 + d);
    }
    assert (m1 % 0x10000) / 0x1000 == b by {
      DivMod65536(m1, a, b * 0x1000 + c * 0x100 + d * 16);
      DivMod4096(b * 0x1000 + c * 0x100 + d * 16, b, c * 0x100 + d * 16);
    }
    assert (m2 % 0x10000) / 0x1000 == c by {
      DivMod65536(m2, a * 16 + b, c * 0x1000 + d * 0x100);
      DivMod4096(c * 0x1000 + d * 0x100, c, d * 0x100);
    }
    assert (m3 % 0x10000) / 0x1000 == d by {
      DivMod65536(m3, a * 256 + b * 16 + c, d * 0x1000);
      DivMod4096(d * 0x1000, d, 0);
    }
    assert ShiftedDigits(m3, 1) == [HexDigits[d]] + ShiftedDigits(m3 * 16, 0);
    assert ShiftedDigits(m2, 2) == [HexDigits[c]] + ShiftedDigits(m3, 1);
    assert ShiftedDigits(m1, 3) == [HexDigits[b]] + ShiftedDigits(m2, 2);
    assert ShiftedDigits(n, 4) == [HexDigits[a]] + ShiftedDigits(m1, 3);
  }

  /** Four hexadecimal digits read back give the value they were made from. */
  lemma NibblesValue(a: nat, b: nat, c: nat, d: nat)
    requires a < 16 && b < 16 && c < 16 && d < 16
    ensures var ds := [HexDigits[a], HexDigits[b], HexDigits[c], HexDigits[d]];
      AllHex(ds) && HexValue(ds) == a * 0x1000 + b * 0x100 + c * 16 + d
  {
    var ds := [HexDigits[a], HexDigits[b], HexDigits[c], HexDigits[d]];
    HexDigitsValues(a);
    HexDigitsValues(b);
    HexDigitsValues(c);
    HexDigitsValues(d);
    var s1 := [HexDigits[a]];
    var s2 := s1 + [HexDigits[b]];
    var s3 := s2 + [HexDigits[c]];
    assert s1[..0] == [];
    assert HexValue(s1) == a;
    assert s2[..1] == s1;
    assert HexValue(s2) == a * 16 + b;
    assert s3[..2] == s2;
    assert HexValue(s3) == a * 0x100 + b * 16 + c;
    assert ds == s3 + [HexDigits[d]];
    assert ds[..3] == s3;
  }

  /** The four digits emitted for a 16-bit value read back as that value. */
  lemma ShiftedDigitsValue(n: nat)
    requires n < 0x10000
    ensures AllHex(ShiftedDigits(n, 4)) && HexValue(ShiftedDigits(n, 4)) == n
  {
    var a, b, c, d := NibbleSplit(n);
    ShiftedNibbles(n, a, b, c, d);
    NibblesValue(a, b, c, d);
  }

  /** `unicode(c)`: a backslash, `u` and four upper-case hexadecimal digits
      whose value is the code of `c`. */
  function Unicode(c: char): (r: string)
    requires c as int < 0x10000
    ensures |r| == 6 && r[..2] == "\\u"
    ensures forall k :: 2 <= k < 6 ==> r[k] in HexDigits
    ensures AllHex(r[2..]) && HexValue(r[2..]) == c as int
  {
    ShiftedDigitsValue(c as int);
    assert ("\\u" + ShiftedDigits(c as int, 4))[2..] == ShiftedDigits(c as int, 4);
    "\\u" + ShiftedDigits(c as int, 4)
  }

  /** The escape `string` writes for one character. */
  function EscapeChar(c: char): (r: string)
    ensures r == [c] <==> c != '"' && c != '\\' && c != '/' && !IsISOControl(c)
    ensures r != [c] ==> |r| >= 2 && r[0] == '\\'
    ensures forall k :: 0 <= k < |r| ==> !IsISOControl(r[k])
  {
    if c == '"' then "\\\""
    else if c == '\\' then "\\\\"
    else if c == '/' then "\\/"
    else if c == '\U{8}' then "\\b"
    else if c == '\U{C}' then "\\f"
    else if c == '\n' then "\\n"
    else if c == '\r' then "\\r"
    else if c == '\t' then "\\t"
    else if IsISOControl(c) then Unicode(c)
    else [c]
  }

  /** `CharacterIterator.DONE`: the iterator reports it at the end of the
      text, and the loop of `string` stops at the first character equal to
      it as well. */
  const Done: char := '\U{FFFF}'

  /** The part of a text that the loop of `string` walks: everything before
      the first U+FFFF. */
  function UntilDone(s: string): (r: string)
    ensures r <= s && Done !in r
    ensures |r| < |s| ==> s[|r|] == Done
  {
    if |s| == 0 || s[0] == Done then "" else [s[0]] + UntilDone(s[1..])
  }

  /** The escaped characters of `s`, up to the first U+FFFF. */
  function EscapeBody(s: string): (r: string)
    ensures |r| >= |UntilDone(s)|
    ensures forall k :: 0 <= k < |r| ==> !IsISOControl(r[k])
  {
    if |s| == 0 || s[0] == Done then "" else EscapeChar(s[0]) + EscapeBody(s[1..])
  }

  /** `string(obj)`: the text of `obj` between double quotes, escaped. */
  function EscapeString(s: string): (r: string)
    ensures |r| >= 2 && r[0] == '"' && r[|r| - 1] == '"'
  {
    "\"" + EscapeBody(s) + "\""
  }

  /** A text without U+FFFF is walked to its end. */
  lemma UntilDoneWhole(s: string)
    requires Done !in s
    ensures UntilDone(s) == s
  {
  }

  /** Nothing after the first U+FFFF reaches the output: `s` is written as
      the text before it. */
  lemma {:induction false} EscapeStopsAtDone(s: string)
    ensures EscapeString(s) == EscapeString(UntilDone(s))
    ensures EscapeBody(s) == EscapeBody(UntilDone(s))
    decreases |s|
  {
    if |s| > 0 && s[0] != Done {
      EscapeStopsAtDone(s[1..]);
      var t := UntilDone(s);
      assert t == [s[0]] + UntilDone(s[1..]);
      assert t[0] == s[0] && t[1..] == UntilDone(s[1..]);
    }
  }

  /** `"a\uFFFFb"` is written exactly as `"a"`. */
  lemma DoneTruncates()
    ensures EscapeString("a\U{FFFF}b") == EscapeString("a") == "\"a\""
  {
    assert "a\U{FFFF}b"[1..] == "\U{FFFF}b";
    assert "a"[1..] == "";
  }

  /** The character a two-character escape `\c` stands for. */
  function SimpleEscape(c: char): Option<char> {
    if c == '"' then Some('"')
    else if c == '\\' then Some('\\')
    else if c == '/' then Some('/')
    else if c == 'b' then Some('\U{8}')
    else if c == 'f' then Some('\U{C}')
    else if c == 'n' then Some('\n')
    else if c == 'r' then Some('\r')
    else if c == 't' then Some('\t')
    else None
  }

  /** Decodes the body of a JSON string (the text between the quotes);
      `None` when it is not a well-formed body: a raw quote, a raw control
      character below U+0020, or a malformed escape. */
  function UnescapeBody(t: string): (r: Option<string>)
    ensures r.Some? ==> |r.value| <= |t|
    decreases |t|
  {
    if |t| == 0 then Some("")
    else if t[0] == '\\' then
      if |t| >= 2 && SimpleEscape(t[1]).Some? then
        var rest :- UnescapeBody(t[2..]);
        Some([SimpleEscape(t[1]).value] + rest)
      else if |t| >= 6 && t[1] == 'u' && AllHex(t[2..6]) then
        var v := HexValue(t[2..6]);
        if 0xD800 <= v < 0xE000 || v >= 0x110000 then None
        else
          var rest :- UnescapeBody(t[6..]);
          Some([v as char] + rest)
      else None
    else if t[0] == '"' || t[0] < ' ' then None
    else
      var rest :- UnescapeBody(t[1..]);
      Some([t[0]] + rest)
  }

  /** Decodes a complete JSON string literal. */
  function UnescapeString(t: string): Option<string> {
    if |t| >= 2 && t[0] == '"' && t[|t| - 1] == '"' then UnescapeBody(t[1..|t| - 1]) else None
  }

  function Prepend(c: char, r: Option<string>): Option<string> {
    match r
    case None => None
    case Some(x) => Some([c] + x)
  }

  lemma UnescapeTwoCharEscape(x: char, rest: string)
    requires SimpleEscape(x).Some?
    ensures UnescapeBody(['\\', x] + rest) == Prepend(SimpleEscape(x).value, UnescapeBody(rest))
  {
    assert (['\\', x] + rest)[2..] == rest;
  }

  lemma UnescapeUnicodeEscape(c: char, rest: string)
    requires IsISOControl(c)
    ensures UnescapeBody(Unicode(c) + rest) == Prepend(c, UnescapeBody(rest))
  {
    var u := Unicode(c);
    var t := u + rest;
    PrefixSlices(u, rest);
    assert t[0] == '\\' && t[1] == 'u';
    UnescapeHexStep(t);
  }

  lemma PrefixSlices(u: string, rest: string)
    requires |u| == 6
    ensures (u + rest)[..2] == u[..2] && (u + rest)[2..6] == u[2..] && (u + rest)[6..] == rest
  {
  }

  /** One `\uXXXX` escape of a code point outside the surrogates. */
  lemma UnescapeHexStep(t: string)
    requires |t| >= 6 && t[0] == '\\' && t[1] == 'u' && AllHex(t[2..6])
    requires HexValue(t[2..6]) < 0xD800
    ensures UnescapeBody(t) == Prepend(HexValue(t[2..6]) as char, UnescapeBody(t[6..]))
  {
    assert SimpleEscape(t[1]).None?;
  }

  lemma UnescapePlain(c: char, rest: string)
    requires c != '\\' && c != '"' && !IsISOControl(c)
    ensures UnescapeBody([c] + rest) == Prepend(c, UnescapeBody(rest))
  {
    assert ([c] + rest)[1..] == rest;
  }

  /** Decoding an escaped character followed by more text yields the
      character followed by the decoding of the rest. */
  lemma UnescapeEscapeChar(c: char, rest: string)
    ensures UnescapeBody(EscapeChar(c) + rest) == Prepend(c, UnescapeBody(rest))
  {
    if c == '"' { UnescapeTwoCharEscape('"', rest); }
    else if c == '\\' { UnescapeTwoCharEscape('\\', rest); }
    else if c == '/' { UnescapeTwoCharEscape('/', rest); }
    else if c == '\U{8}' { UnescapeTwoCharEscape('b', rest); }
    else if c == '\U{C}' { UnescapeTwoCharEscape('f', rest); }
    else if c == '\n' { UnescapeTwoCharEscape('n', rest); }
    else if c == '\r' { UnescapeTwoCharEscape('r', rest); }
    else if c == '\t' { UnescapeTwoCharEscape('t', rest); }
    else if IsISOControl(c) { UnescapeUnicodeEscape(c, rest); }
    else { UnescapePlain(c, rest); }
  }

  /** Escaping is undone by decoding: the writer's string bodies are
      well-formed JSON string bodies denoting the text before the first
      U+FFFF. */
  lemma {:induction false} UnescapeEscapeBody(s: string)
    ensures UnescapeBody(EscapeBody(s)) == Some(UntilDone(s))
    decreases |s|
  {
    if |s| > 0 && s[0] != Done {
      UnescapeEscapeBody(s[1..]);
      UnescapeEscapeChar(s[0], EscapeBody(s[1..]));
    }
  }

  /** A string literal produced by `string` decodes to the text before the
      first U+FFFF, which is the whole text when it holds no U+FFFF. */
  lemma UnescapeEscapeString(s: string)
    ensures UnescapeString(EscapeString(s)) == Some(UntilDone(s))
    ensures Done !in s ==> UnescapeString(EscapeString(s)) == Some(s)
  {
    var r := EscapeString(s);
    assert r[1..|r| - 1] == EscapeBody(s);
    UnescapeEscapeBody(s);
    if Done !in s {
      UntilDoneWhole(s);
    }
  }

  /** Texts are written as the same literal exactly when they agree up to
      their first U+FFFF; texts without U+FFFF are written as different
      literals whenever they differ. */
  lemma EscapeStringInjective(s: string, t: string)
    ensures EscapeString(s) == EscapeString(t) <==> UntilDone(s) == UntilDone(t)
    ensures Done !in s && Done !in t ==> (EscapeString(s) == EscapeString(t) <==> s == t)
  {
    UnescapeEscapeString(s);
    UnescapeEscapeString(t);
    EscapeStopsAtDone(s);
    EscapeStopsAtDone(t);
  }
}
