/**
 * The text form in which a tape side's track links are stored: the array of
 * strings as JSON.stringify writes it (no whitespace), and JSON.parse's reading
 * of such text back into the array.
 */
module LinkCodec {
  import opened Wrappers

  /** The characters JSON forbids raw inside a string literal (U+0000 to U+001F). */
  predicate IsControl(c: char)
  {
    c as int < 0x20
  }

  predicate NoControl(s: string)
  {
    forall i :: 0 <= i < |s| ==> !IsControl(s[i])
  }

  /** A lower-case hexadecimal digit, as JSON.stringify writes them. */
  function HexDigit(d: nat): (c: char)
    requires d < 16
    ensures !IsControl(c)
  {
    if d < 10 then ('0' as int + d) as char else ('a' as int + d - 10) as char
  }

  /** The value of a hexadecimal digit of either case, as JSON.parse reads them. */
  function HexValue(c: char): (v: Option<nat>)
    ensures v.Some? ==> v.value < 16 && !IsControl(c)
  {
    if '0' <= c <= '9' then Some(c as int - '0' as int)
    else if 'a' <= c <= 'f' then Some(c as int - 'a' as int + 10)
    else if 'A' <= c <= 'F' then Some(c as int - 'A' as int + 10)
    else None
  }

  /** The value of the four hexadecimal digits of a `\u` escape. */
  function Hex4(u: string): (v: Option<nat>)
    requires |u| == 4
    ensures v.Some? ==> v.value < 0x10000 && NoControl(u)
  {
    match (HexValue(u[0]), HexValue(u[1]), HexValue(u[2]), HexValue(u[3]))
    case (Some(a), Some(b), Some(c), Some(d)) => Some(((a * 16 + b) * 16 + c) * 16 + d)
    case _ => None
  }

  /**
   * One character inside a string literal: quote and backslash get a backslash,
   * control characters get their short escape or `\u00XX`, everything else stays.
   */
  function EscapeChar(c: char): (e: string)
    ensures NoControl(e)
  {
    if c == '"' then "\\\""
    else if c == '\\' then "\\\\"
    else if c as int == 8 then "\\b"
    else if c == '\t' then "\\t"
    else if c == '\n' then "\\n"
    else if c as int == 12 then "\\f"
    else if c == '\r' then "\\r"
    else if IsControl(c) then "\\u00" + [HexDigit(c as int / 16), HexDigit(c as int % 16)]
    else [c]
  }

  /** The body of a string literal; it never holds a raw control character. */
  function Escape(s: string): (e: string)
    ensures NoControl(e)
  {
    if s == [] then [] else EscapeChar(s[0]) + Escape(s[1..])
  }

  /** A string literal: the escaped body between two quotes. */
  function EncodeString(s: string): string
  {
    "\"" + Escape(s) + "\""
  }

  /** The comma-separated literals of an array's elements. */
  function EncodeItems(xs: seq<string>): string
  {
    if xs == [] then ""
    else if |xs| == 1 then EncodeString(xs[0])
    else EncodeString(xs[0]) + "," + EncodeItems(xs[1..])
  }

  /** JSON.stringify of an array of strings. */
  function Encode(xs: seq<string>): (t: string)
    ensures |t| >= 2 && t[0] == '[' && t[|t| - 1] == ']'
  {
    "[" + EncodeItems(xs) + "]"
  }

  /**
   * The character an escape stands for, read from the text after its backslash,
   * and the text after the escape. `\u` escapes of surrogate halves are refused.
   */
  function DecodeEscape(u: string): (r: Option<(char, string)>)
    ensures r.Some? ==> |r.value.1| < |u| && u == u[..|u| - |r.value.1|] + r.value.1
    ensures r.Some? ==> NoControl(u[..|u| - |r.value.1|])
  {
    if u == [] then None
    else if u[0] == '"' || u[0] == '\\' || u[0] == '/' then Some((u[0], u[1..]))
    else if u[0] == 'b' then Some((8 as char, u[1..]))
    else if u[0] == 'f' then Some((12 as char, u[1..]))
    else if u[0] == 'n' then Some(('\n', u[1..]))
    else if u[0] == 'r' then Some(('\r', u[1..]))
    else if u[0] == 't' then Some(('\t', u[1..]))
    else if u[0] == 'u' && |u| >= 5 then
      match Hex4(u[1..5])
      case None => None
      case Some(v) =>
        if 0xD800 <= v < 0xE000 then None
        else assert u[..5] == [u[0]] + u[1..5]; Some((v as char, u[5..]))
    else None
  }

  /**
   * One character of a literal's body other than its closing quote: a raw
   * character, which may not be a control character, or an escape.
   */
  function DecodeChar(t: string): (r: Option<(char, string)>)
    requires t != [] && t[0] != '"'
    ensures r.Some? ==> |r.value.1| < |t| && t[|t| - |r.value.1|..] == r.value.1
    ensures r.Some? ==> NoControl(t[..|t| - |r.value.1|])
  {
    if IsControl(t[0]) then None
    else if t[0] == '\\' then
      match DecodeEscape(t[1..])
      case None => None
      case Some((c, more)) =>
        assert t[..|t| - |more|] == [t[0]] + t[1..][..|t| - 1 - |more|];
        NoControlJoin([t[0]], t[1..][..|t| - 1 - |more|]);
        Some((c, more))
    else
      assert t[..1] == [t[0]];
      Some((t[0], t[1..]))
  }

  /**
   * Reads the body of a string literal that starts at t[0] and runs to the
   * first unescaped quote; gives the decoded string and the text after that quote.
   * A raw control character before the quote makes it fail, as in JSON.parse.
   */
  function DecodeString(t: string): (r: Option<(string, string)>)
    ensures r.Some? ==> |r.value.1| < |t| && r.value.1 == t[|t| - |r.value.1|..]
    decreases |t|
  {
    if t == [] then None
    else if t[0] == '"' then Some(([], t[1..]))
    else
      match DecodeChar(t)
      case None => None
      case Some((c, more)) =>
        match DecodeString(more)
        case None => None
        case Some((s, rest)) => Some(([c] + s, rest))
  }

  /** Reads one or more literals separated by commas and closed by the array's final bracket. */
  function DecodeItems(t: string): (r: Option<seq<string>>)
    ensures r.Some? ==> |r.value| > 0 && t != [] && t[|t| - 1] == ']'
    decreases |t|
  {
    if t == [] || t[0] != '"' then None
    else
      match DecodeString(t[1..])
      case None => None
      case Some((s, rest)) =>
        if rest == "]" then Some([s])
        else if rest != [] && rest[0] == ',' then
          match DecodeItems(rest[1..])
          case None => None
          case Some(ss) => Some([s] + ss)
        else None
  }

  /** JSON.parse of an array of strings; where it gives a list, JSON.parse gives the same. */
  function Decode(t: string): (r: Option<seq<string>>)
    ensures r.Some? ==> |t| >= 2 && t[0] == '[' && t[|t| - 1] == ']'
  {
    if t == "[]" then Some([])
    else if t != [] && t[0] == '[' then DecodeItems(t[1..])
    else None
  }

  lemma NoControlJoin(a: string, b: string)
    requires NoControl(a) && NoControl(b)
    ensures NoControl(a + b)
  {
    assert forall i :: 0 <= i < |a + b| ==> (a + b)[i] == if i < |a| then a[i] else b[i - |a|];
  }

  /** A control-free prefix of t, then a control-free prefix of the suffix u behind it, make a control-free prefix of t. */
  lemma NoControlChain(t: string, u: string, k: nat)
    requires |u| <= |t| && t[|t| - |u|..] == u && NoControl(t[..|t| - |u|])
    requires k <= |u| && NoControl(u[..k])
    ensures NoControl(t[..|t| - |u| + k])
  {
    assert t[..|t| - |u| + k] == t[..|t| - |u|] + u[..k];
    NoControlJoin(t[..|t| - |u|], u[..k]);
  }

  /** Everything a literal consumes up to its closing quote is free of raw control characters. */
  lemma {:induction false} DecodeStringRefusesControl(t: string)
    ensures DecodeString(t).Some? ==> NoControl(t[..|t| - |DecodeString(t).value.1|])
    decreases |t|
  {
    if t != [] && t[0] != '"' {
      match DecodeChar(t)
      case None =>
      case Some((_, more)) =>
        DecodeStringRefusesControl(more);
        if DecodeString(more).Some? {
          NoControlChain(t, more, |more| - |DecodeString(more).value.1|);
        }
    }
  }

  /** A text whose two pieces either side of k are free of control characters is too. */
  lemma NoControlSplit(t: string, k: nat)
    requires k <= |t| && NoControl(t[..k]) && NoControl(t[k..])
    ensures NoControl(t)
  {
    assert t == t[..k] + t[k..];
    NoControlJoin(t[..k], t[k..]);
  }

  lemma {:induction false} DecodeItemsRefusesControl(t: string)
    ensures DecodeItems(t).Some? ==> NoControl(t)
    decreases |t|
  {
    if DecodeItems(t).Some? {
      var u := t[1..];
      var rest := DecodeString(u).value.1;
      var k := |u| - |rest|;
      DecodeStringRefusesControl(u);
      assert u[k..] == rest;
      if rest != "]" {
        DecodeItemsRefusesControl(rest[1..]);
        NoControlSplit(rest, 1);
      }
      NoControlSplit(u, k);
      NoControlSplit(t, 1);
    }
  }

  /** Like JSON.parse, Decode accepts no text that holds a raw control character. */
  lemma DecodeRefusesControl(t: string)
    ensures Decode(t).Some? ==> NoControl(t)
  {
    if Decode(t).Some? && t != "[]" {
      DecodeItemsRefusesControl(t[1..]);
      NoControlSplit(t, 1);
    }
  }

  /** A hexadecimal digit reads back as the value it was written for. */
  lemma HexRoundTrip(d: nat)
    requires d < 16
    ensures HexValue(HexDigit(d)) == Some(d)
  {
  }

  /** The escape written for one character reads back as that character. */
  lemma DecodeEscapedChar(c: char, more: string)
    ensures DecodeString(EscapeChar(c) + more) ==
      match DecodeString(more)
      case None => None
      case Some((s, rest)) => Some(([c] + s, rest))
  {
    var e := EscapeChar(c);
    var t := e + more;
    if |e| == 1 {
      assert t[0] == c && t[1..] == more;
    } else if |e| == 2 {
      assert t[0] == '\\' && t[1..] == [e[1]] + more;
      assert DecodeEscape(t[1..]) == Some((c, more));
    } else {
      var n := c as int;
      HexRoundTrip(n / 16);
      HexRoundTrip(n % 16);
      var u := t[1..];
      assert u == "u00" + [HexDigit(n / 16), HexDigit(n % 16)] + more;
      assert u[1..5] == "00" + [HexDigit(n / 16), HexDigit(n % 16)];
      assert Hex4(u[1..5]) == Some(n);
      assert (n as char) == c;
      assert u[5..] == more;
      assert DecodeEscape(u) == Some((c, more));
    }
  }

  lemma {:induction false} DecodeEscaped(s: string, rest: string)
    ensures DecodeString(Escape(s) + "\"" + rest) == Some((s, rest))
  {
    if s == [] {
      assert Escape(s) + "\"" + rest == "\"" + rest;
    } else {
      var more := Escape(s[1..]) + "\"" + rest;
      assert Escape(s) + "\"" + rest == EscapeChar(s[0]) + more;
      DecodeEscaped(s[1..], rest);
      DecodeEscapedChar(s[0], more);
      assert [s[0]] + s[1..] == s;
    }
  }

  /** The last literal of a list, followed by the closing bracket. */
  lemma {:induction false} DecodeItemsLast(s: string)
    ensures DecodeItems(EncodeString(s) + "]") == Some([s])
  {
    var t := EncodeString(s) + "]";
    assert t[1..] == Escape(s) + "\"" + "]";
    DecodeEscaped(s, "]");
  }

  /** A literal followed by a comma: the rest of the list is read after the comma. */
  lemma {:induction false} DecodeItemsCons(s: string, more: string)
    ensures DecodeItems(EncodeString(s) + "," + more) ==
      match DecodeItems(more)
      case None => None
      case Some(ss) => Some([s] + ss)
  {
    var t := EncodeString(s) + "," + more;
    var rest := "," + more;
    assert t[1..] == Escape(s) + "\"" + rest;
    DecodeEscaped(s, rest);
    assert rest != "]" && rest[0] == ',' && rest[1..] == more;
  }

  lemma {:induction false} DecodeEncodedItems(xs: seq<string>)
    requires xs != []
    ensures DecodeItems(EncodeItems(xs) + "]") == Some(xs)
  {
    if |xs| == 1 {
      assert EncodeItems(xs) == EncodeString(xs[0]);
      DecodeItemsLast(xs[0]);
      assert [xs[0]] == xs;
    } else {
      var more := EncodeItems(xs[1..]) + "]";
      assert EncodeItems(xs) + "]" == EncodeString(xs[0]) + "," + more;
      DecodeItemsCons(xs[0], more);
      DecodeEncodedItems(xs[1..]);
      assert [xs[0]] + xs[1..] == xs;
    }
  }

  /** Reading back what was written gives the same links, in the same order. */
  lemma {:induction false} RoundTrip(xs: seq<string>)
    ensures Decode(Encode(xs)) == Some(xs)
  {
    if xs != [] {
      var t := Encode(xs);
      assert t[1..] == EncodeItems(xs) + "]";
      DecodeEncodedItems(xs);
      assert EncodeItems(xs)[0] == '"';
      assert t != "[]";
    }
  }

  /** Two different link lists are never stored as the same text. */
  lemma EncodeInjective(xs: seq<string>, ys: seq<string>)
    ensures Encode(xs) == Encode(ys) ==> xs == ys
  {
    RoundTrip(xs);
    RoundTrip(ys);
  }
}
