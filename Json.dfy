/**
 * json_encode() of a PHP string with the default flags: the text in double quotes,
 * with `\"`, `\\`, `\/`, `\b`, `\f`, `\n`, `\r`, `\t`, `\u00XX` for the other
 * control characters and `\uXXXX` (a surrogate pair above U+FFFF) for every
 * non-ASCII character, hexadecimal digits in lower case.  The capturing output
 * sink only ever asks whether the encoding contains a line break or `\b`.
 */
module Json {
  import opened Php

  function HexDigit(d: nat): (c: char)
    requires d < 16
    ensures '0' <= c <= '9' || 'a' <= c <= 'f'
  {
    if d < 10 then ('0' as int + d) as char else ('a' as int + d - 10) as char
  }

  function Hex4(n: nat): string
    requires n < 0x10000
  {
    [HexDigit(n / 0x1000), HexDigit(n / 0x100 % 16), HexDigit(n / 16 % 16), HexDigit(n % 16)]
  }

  /** The JSON text of one character. */
  function EscapeChar(c: char): string {
    if c == '"' then "\\\""
    else if c == '\\' then "\\\\"
    else if c == '/' then "\\/"
    else if c == Backspace then "\\b"
    else if c == 12 as char then "\\f"
    else if c == '\n' then "\\n"
    else if c == '\r' then "\\r"
    else if c == '\t' then "\\t"
    else if (c as int) < 0x20 then "\\u" + Hex4(c as int)
    else if (c as int) < 0x80 then [c]
    else if (c as int) < 0x10000 then "\\u" + Hex4(c as int)
    else
      var v := c as int - 0x10000;
      "\\u" + Hex4(0xD800 + v / 0x400) + "\\u" + Hex4(0xDC00 + v % 0x400)
  }

  function Escape(s: string): string {
    if s == [] then [] else EscapeChar(s[0]) + Escape(s[1..])
  }

  /** json_encode($s) */
  function EncodeString(s: string): string {
    "\"" + Escape(s) + "\""
  }

  /** The encoding holds a backslash directly followed by `b`. */
  predicate HasBackslashB(s: string) {
    exists i :: 0 <= i < |s| - 1 && s[i] == '\\' && s[i + 1] == 'b'
  }

  lemma HasBackslashBConcat(a: string, b: string)
    ensures HasBackslashB(a + b) <==>
            HasBackslashB(a) || HasBackslashB(b) || (|a| > 0 && |b| > 0 && a[|a| - 1] == '\\' && b[0] == 'b')
  {
    var s := a + b;
    if HasBackslashB(s) {
      var i :| 0 <= i < |s| - 1 && s[i] == '\\' && s[i + 1] == 'b';
      if i + 1 < |a| {
        assert a[i] == s[i] && a[i + 1] == s[i + 1];
      } else if i >= |a| {
        assert b[i - |a|] == s[i] && b[i - |a| + 1] == s[i + 1];
      }
    }
    if HasBackslashB(a) {
      var i :| 0 <= i < |a| - 1 && a[i] == '\\' && a[i + 1] == 'b';
      assert s[i] == a[i] && s[i + 1] == a[i + 1];
    }
    if HasBackslashB(b) {
      var i :| 0 <= i < |b| - 1 && b[i] == '\\' && b[i + 1] == 'b';
      assert s[|a| + i] == b[i] && s[|a| + i + 1] == b[i + 1];
    }
    if |a| > 0 && |b| > 0 && a[|a| - 1] == '\\' && b[0] == 'b' {
      assert s[|a| - 1] == a[|a| - 1] && s[|a|] == b[0];
    }
  }

  /** What the encoding of one character looks like at its two ends and inside. */
  lemma EscapeCharShape(c: char)
    ensures |EscapeChar(c)| > 0
    ensures EscapeChar(c)[0] == 'b' <==> c == 'b'
    ensures EscapeChar(c)[|EscapeChar(c)| - 1] == '\\' <==> c == '\\'
    ensures HasBackslashB(EscapeChar(c)) <==> c == Backspace
    ensures forall i :: 0 <= i < |EscapeChar(c)| ==> EscapeChar(c)[i] != '\n'
  {
    var e := EscapeChar(c);
    if c == Backspace {
      assert e[0] == '\\' && e[1] == 'b';
    }
  }

  /** The encoding of a string contains `\b` exactly when the string holds chr(8) or a backslash followed by `b`. */
  lemma {:induction false} EscapeBackslashB(s: string)
    ensures HasBackslashB(Escape(s)) <==> Backspace in s || HasBackslashB(s)
    ensures |s| > 0 ==> |Escape(s)| > 0 && (Escape(s)[0] == 'b' <==> s[0] == 'b')
    ensures forall i :: 0 <= i < |Escape(s)| ==> Escape(s)[i] != '\n'
  {
    if s != [] {
      EscapeCharShape(s[0]);
      EscapeBackslashB(s[1..]);
      BackslashBStep(s[0], EscapeChar(s[0]), s[1..], Escape(s[1..]));
      assert [s[0]] + s[1..] == s;
    }
  }

  /** One step of the induction above: prepending a character and its encoding keeps the three facts. */
  lemma BackslashBStep(c: char, head: string, t: string, rest: string)
    requires |head| > 0 && (head[0] == 'b' <==> c == 'b') && (head[|head| - 1] == '\\' <==> c == '\\')
    requires (HasBackslashB(head) <==> c == Backspace) && forall i :: 0 <= i < |head| ==> head[i] != '\n'
    requires HasBackslashB(rest) <==> Backspace in t || HasBackslashB(t)
    requires |t| > 0 ==> |rest| > 0 && (rest[0] == 'b' <==> t[0] == 'b')
    requires |t| == 0 ==> rest == []
    requires forall i :: 0 <= i < |rest| ==> rest[i] != '\n'
    ensures HasBackslashB(head + rest) <==> Backspace in [c] + t || HasBackslashB([c] + t)
    ensures |head + rest| > 0 && ((head + rest)[0] == 'b' <==> c == 'b')
    ensures forall i :: 0 <= i < |head + rest| ==> (head + rest)[i] != '\n'
  {
    HasBackslashBConcat(head, rest);
    HasBackslashBConcat([c], t);
    assert Backspace in [c] + t <==> c == Backspace || Backspace in t;
    assert (head + rest)[0] == head[0];
    forall i | 0 <= i < |head + rest|
      ensures (head + rest)[i] != '\n'
    {
      if i >= |head| {
        assert (head + rest)[i] == rest[i - |head|];
      }
    }
  }

  /** json_encode($s) never holds a raw line break, and holds `\b` exactly when $s holds chr(8) or a backslash followed by `b`. */
  lemma EncodeStringMarkers(s: string)
    ensures forall i :: 0 <= i < |EncodeString(s)| ==> EncodeString(s)[i] != '\n'
    ensures Contains(EncodeString(s), "\\b") <==> Backspace in s || Contains(s, "\\b")
    ensures |EncodeString(s)| > 0 && EncodeString(s)[0] == '"'
  {
    var e := Escape(s);
    EscapeBackslashB(s);
    HasBackslashBConcat("\"", e);
    HasBackslashBConcat("\"" + e, "\"");
    ContainsPairIff(EncodeString(s), "\\b");
    ContainsPairIff(s, "\\b");
    forall i | 0 <= i < |EncodeString(s)|
      ensures EncodeString(s)[i] != '\n'
    {
      if 0 < i < |EncodeString(s)| - 1 {
        assert EncodeString(s)[i] == e[i - 1];
      }
    }
  }
}
