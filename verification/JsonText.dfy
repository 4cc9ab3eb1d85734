/** JSON values as the client sees them, and their text as `serde_json` writes it. */
module JsonText {
  import opened Scale
  import opened Registry
  import opened Hex

  /** Numbers are 64-bit integers or doubles; none is written with more than 24 characters. */
  type NumberText = s: string | |s| <= 24 witness ""

  datatype Json =
    | Null
    | Bool(b: bool)
    | Number(text: NumberText, isI64: bool)
    | Str(s: string)
    | Arr(items: seq<Json>)
    | Obj(fields: map<string, Json>)

  /** `value[key]`: anything missing is null. */
  function Get(j: Json, key: string): (r: Json)
  {
    if j.Obj? && key in j.fields then j.fields[key] else Null
  }

  predicate NeedsEscape(c: char) { c == '"' || c == '\\' || c < ' ' }

  function EscapeChar(c: char): (s: string)
  {
    if !NeedsEscape(c) then [c]
    else if c == '"' || c == '\\' then ['\\', c]
    else if c == '\n' then ['\\', 'n']
    else if c == '\r' then ['\\', 'r']
    else if c == '\t' then ['\\', 't']
    else if c as int == 8 then ['\\', 'b']
    else if c as int == 12 then ['\\', 'f']
    else "\\u00" + HexEncode([c as int])
  }

  function Escape(s: string): (r: string)
  {
    if s == [] then [] else EscapeChar(s[0]) + Escape(s[1..])
  }

  /** `to_string`; `contents` is the text between the brackets of an array or object. */
  function Render(contents: Json -> string, j: Json): (s: string)
  {
    match j
    case Null => "null"
    case Bool(b) => if b then "true" else "false"
    case Number(text, _) => text
    case Str(s) => "\"" + Escape(s) + "\""
    case Arr(_) => "[" + contents(j) + "]"
    case Obj(_) => "{" + contents(j) + "}"
  }

  predicate Unescaped(s: string)
  {
    forall i :: 0 <= i < |s| ==> !NeedsEscape(s[i])
  }

  lemma {:induction false} EscapeIdentity(s: string)
    requires Unescaped(s)
    ensures Escape(s) == s
  {
    if s != [] {
      EscapeIdentity(s[1..]);
      assert s == [s[0]] + s[1..];
    }
  }

  lemma {:induction false} EscapeBackslash(s: string) returns (i: nat)
    requires !Unescaped(s)
    ensures i < |Escape(s)| && Escape(s)[i] == '\\'
  {
    if NeedsEscape(s[0]) {
      i := 0;
    } else {
      var k := EscapeBackslash(s[1..]);
      i := k + 1;
    }
  }

  lemma {:induction false} DecodedLength(s: string)
    requires HexDecode(s).Some?
    ensures 2 * |HexDecode(s).value| == |s|
  {
    if s != [] { DecodedLength(s[2..]); }
  }

  lemma {:induction false} ZeroXLength(s: string)
    ensures |TrimZeroX(s)| <= |s|
  {
    if |s| >= 2 && s[0] == '0' && s[1] == 'x' { ZeroXLength(s[2..]); }
  }

  lemma ShortText(s: string)
    requires |s| < 64
    ensures HashFromHex(s).None?
  {
    if FromHex(s).Some? {
      var n := TrimmedLeft(s);
      TrimmedRight(TrimLeft(s));
      ZeroXLength(TrimRight(TrimLeft(s)));
      DecodedLength(TrimZeroX(TrimRight(TrimLeft(s))));
    }
  }

  lemma QuotedText(s: string)
    requires Unescaped(s)
    ensures FromHex("\"" + s + "\"") == FromHex(s)
  {
    assert "\"" + s + "\"" == Quotes(1) + (s + Quotes(1));
    if s == [] {
      assert "\"" + s + "\"" == Quotes(2) + [];
      TrimLeftQuotes(2, []);
    } else {
      TrimLeftQuotes(1, s + Quotes(1));
      TrimRightQuotes(s, 1);
    }
  }

  /** Which JSON values read back as a hash once written: strings holding one, unescaped. */
  predicate HoldsHash(j: Json, h: seq<byte>)
  {
    j.Str? && Unescaped(j.s) && HashFromHex(j.s).Some? && HashFromHex(j.s).value == h
  }

  lemma RenderedHashIff(contents: Json -> string, j: Json, h: seq<byte>)
    ensures (HashFromHex(Render(contents, j)).Some? && HashFromHex(Render(contents, j)).value == h) <==> HoldsHash(j, h)
  {
    hide FromHex;
    var s := Render(contents, j);
    if j.Str? {
      if Unescaped(j.s) {
        EscapeIdentity(j.s);
        QuotedText(j.s);
      } else {
        var i := EscapeBackslash(j.s);
        if FromHex(s).Some? { RefusesOtherText(s, i + 1); }
      }
    } else if j.Number? {
      ShortText(s);
    } else if j.Bool? && !j.b {
      if FromHex(s).Some? { RefusesOtherText(s, 3); }
    } else {
      if FromHex(s).Some? { RefusesOtherText(s, 0); }
    }
  }

  /** A value holds a hash iff it is a string of any number of `0x` and the 64 digits, with nothing around
      them: quotes inside the string are escaped, and escaped text is refused. */
  lemma HoldsHashIff(j: Json, h: seq<byte>)
    ensures HoldsHash(j, h) <==> |h| == 32 && exists n: nat, text :: j == Json.Str(ZeroXs(n) + text) && Spells(text, h)
  {
    hide FromHex, Spells, ZeroXs;
    if HoldsHash(j, h) {
      FromHexIff(j.s, h);
      var left: nat, n: nat, text, right: nat :| FramedBy(j.s, left, n, text, right) && Spells(text, h);
      NoFrame(j.s, left, ZeroXs(n) + text, right);
    }
    if |h| == 32 {
      if n: nat, text :| j == Json.Str(ZeroXs(n) + text) && Spells(text, h) {
        assert Quotes(0) + (ZeroXs(n) + text + Quotes(0)) == j.s;
        assert FramedBy(j.s, 0, n, text, 0);
        FromHexIff(j.s, h);
        PlainText(n, text, h);
      }
    }
  }

  lemma QuotedEnds(left: nat, body: string, right: nat)
    ensures var s := Quotes(left) + (body + Quotes(right));
            && (left > 0 ==> |s| > 0 && s[0] == '"') && (right > 0 ==> |s| > 0 && s[|s| - 1] == '"')
            && (left == right == 0 ==> s == body)
  {
  }

  lemma NoFrame(s: string, left: nat, body: string, right: nat)
    requires Unescaped(s) && s == Quotes(left) + (body + Quotes(right))
    ensures s == body
  {
    QuotedEnds(left, body, right);
  }

  lemma PlainText(n: nat, text: string, h: seq<byte>)
    requires Spells(text, h)
    ensures Unescaped(ZeroXs(n) + text)
  {
    PlainZeroXs(n);
    forall i | 0 <= i < |text|
      ensures !NeedsEscape(text[i])
    {
      var b := h[i / 2];
      assert DigitFor(text[2 * (i / 2)], b / 16);
      DigitValueIff(text[i], if i % 2 == 0 then b / 16 else b % 16);
    }
  }

  lemma {:induction false} PlainZeroXs(n: nat)
    ensures Unescaped(ZeroXs(n))
  {
    if n > 0 { PlainZeroXs(n - 1); }
  }
}
