/** Hexadecimal text: the `hex` crate's encoding and decoding, and the client's `FromHexString`,
    which first strips quotes and `0x` prefixes. */
module Hex {
  import opened Scale
  import opened Registry

  function Digit(n: nat): (c: char)
    requires n < 16
    ensures '0' <= c <= '9' || 'a' <= c <= 'f'
  {
    if n < 10 then '0' + n as char else 'a' + (n - 10) as char
  }

  function DigitValue(c: char): (r: Option<nat>)
    ensures r.Some? ==> r.value < 16
  {
    if '0' <= c <= '9' then Some((c - '0') as nat)
    else if 'a' <= c <= 'f' then Some((c - 'a') as nat + 10)
    else if 'A' <= c <= 'F' then Some((c - 'A') as nat + 10)
    else None
  }

  function HexEncode(bs: seq<byte>): (s: string)
    ensures |s| == 2 * |bs|
  {
    if bs == [] then [] else [Digit(bs[0] / 16), Digit(bs[0] % 16)] + HexEncode(bs[1..])
  }

  function HexDecode(s: string): (r: Option<seq<byte>>)
  {
    if s == [] then Some([])
    else if |s| == 1 then None
    else
      var hi, lo, rest := DigitValue(s[0]), DigitValue(s[1]), HexDecode(s[2..]);
      if hi.None? || lo.None? || rest.None? then None else Some([16 * hi.value + lo.value] + rest.value)
  }

  function TrimLeft(s: string): (r: string)
  {
    if s != [] && s[0] == '"' then TrimLeft(s[1..]) else s
  }

  function TrimRight(s: string): (r: string)
  {
    if s != [] && s[|s| - 1] == '"' then TrimRight(s[..|s| - 1]) else s
  }

  /** `trim_start_matches("0x")` strips the prefix as often as it occurs. */
  function TrimZeroX(s: string): (r: string)
  {
    if |s| >= 2 && s[0] == '0' && s[1] == 'x' then TrimZeroX(s[2..]) else s
  }

  /** `Vec::<u8>::from_hex`. */
  function FromHex(s: string): (r: Option<seq<byte>>)
  {
    HexDecode(TrimZeroX(TrimRight(TrimLeft(s))))
  }

  /** `Hash::from_hex`: exactly 32 bytes. */
  function HashFromHex(s: string): (r: Option<seq<byte>>)
  {
    var bs := FromHex(s);
    if bs.Some? && |bs.value| == 32 then bs else None
  }

  lemma DigitRoundTrip(n: nat)
    requires n < 16
    ensures DigitValue(Digit(n)) == Some(n)
  {
  }

  lemma {:induction false} HexRoundTrip(bs: seq<byte>)
    ensures HexDecode(HexEncode(bs)) == Some(bs)
  {
    if bs != [] {
      HexRoundTrip(bs[1..]);
      DigitRoundTrip(bs[0] / 16);
      DigitRoundTrip(bs[0] % 16);
      assert HexEncode(bs)[2..] == HexEncode(bs[1..]);
      assert bs == [16 * (bs[0] / 16) + bs[0] % 16] + bs[1..];
    }
  }

  lemma {:induction false} HexConcat(a: seq<byte>, b: seq<byte>)
    ensures HexEncode(a + b) == HexEncode(a) + HexEncode(b)
  {
    if a == [] {
      assert a + b == b;
    } else {
      assert (a + b)[1..] == a[1..] + b;
      HexConcat(a[1..], b);
    }
  }

  lemma {:induction false} HexDigitsOnly(bs: seq<byte>)
    ensures forall i :: 0 <= i < |HexEncode(bs)| ==> DigitValue(HexEncode(bs)[i]).Some?
  {
    if bs != [] {
      HexDigitsOnly(bs[1..]);
      DigitRoundTrip(bs[0] / 16);
      DigitRoundTrip(bs[0] % 16);
    }
  }

  const LOWER_DIGITS := "0123456789abcdef"
  const UPPER_DIGITS := "0123456789ABCDEF"

  /** Bytes are written high digit first, in lower case. */
  lemma {:induction false} HexText(bs: seq<byte>, i: nat)
    requires i < |bs|
    ensures HexEncode(bs)[2 * i] == LOWER_DIGITS[bs[i] / 16] && HexEncode(bs)[2 * i + 1] == LOWER_DIGITS[bs[i] % 16]
  {
    if i == 0 {
      DigitTable(bs[0] / 16);
      DigitTable(bs[0] % 16);
    } else {
      HexText(bs[1..], i - 1);
    }
  }

  lemma DigitTable(n: nat)
    requires n < 16
    ensures Digit(n) == LOWER_DIGITS[n]
  {
  }

  /** The digit for `n`, in either case. */
  predicate DigitFor(c: char, n: nat)
  {
    n < 16 && (c == LOWER_DIGITS[n] || c == UPPER_DIGITS[n])
  }

  lemma DigitValueIff(c: char, n: nat)
    ensures DigitValue(c) == Some(n) <==> DigitFor(c, n)
  {
  }

  /** Two digits spell each byte, the high one first. */
  predicate Spells(text: string, bs: seq<byte>)
  {
    && |text| == 2 * |bs|
    && forall i :: 0 <= i < |bs| ==> DigitFor(text[2 * i], bs[i] / 16) && DigitFor(text[2 * i + 1], bs[i] % 16)
  }

  lemma {:induction false} HexDecodeIff(text: string, bs: seq<byte>)
    ensures HexDecode(text) == Some(bs) <==> Spells(text, bs)
    decreases |text|
  {
    hide DigitFor, DigitValue, Spells;
    if |text| >= 2 && bs != [] {
      HexDecodeIff(text[2..], bs[1..]);
      DigitValueIff(text[0], bs[0] / 16);
      DigitValueIff(text[1], bs[0] % 16);
      SpellsStep(text, bs);
      DecodeStep(text, bs);
    } else {
      SpellsShort(text, bs);
    }
  }

  lemma SpellsShort(text: string, bs: seq<byte>)
    requires |text| < 2 || bs == []
    ensures Spells(text, bs) <==> text == [] && bs == []
  {
  }

  lemma DecodeStep(text: string, bs: seq<byte>)
    requires |text| >= 2 && bs != []
    ensures HexDecode(text) == Some(bs) <==>
              DigitValue(text[0]) == Some(bs[0] / 16) && DigitValue(text[1]) == Some(bs[0] % 16) && HexDecode(text[2..]) == Some(bs[1..])
  {
    hide DigitValue;
    var hi, lo, rest := DigitValue(text[0]), DigitValue(text[1]), HexDecode(text[2..]);
    assert bs == [bs[0]] + bs[1..];
    if hi.Some? && lo.Some? && rest.Some? {
      var b := 16 * hi.value + lo.value;
      assert b / 16 == hi.value && b % 16 == lo.value;
      assert ([b] + rest.value)[0] == b && ([b] + rest.value)[1..] == rest.value;
    }
  }

  lemma SpellsStep(text: string, bs: seq<byte>)
    requires |text| >= 2 && bs != []
    ensures Spells(text, bs) <==> DigitFor(text[0], bs[0] / 16) && DigitFor(text[1], bs[0] % 16) && Spells(text[2..], bs[1..])
  {
    hide DigitFor;
    if Spells(text, bs) {
      forall i | 0 <= i < |bs[1..]|
        ensures DigitFor(text[2..][2 * i], bs[1..][i] / 16) && DigitFor(text[2..][2 * i + 1], bs[1..][i] % 16)
      {
        assert DigitFor(text[2 * (i + 1)], bs[i + 1] / 16);
      }
    }
    if DigitFor(text[0], bs[0] / 16) && DigitFor(text[1], bs[0] % 16) && Spells(text[2..], bs[1..]) {
      forall i | 0 < i < |bs|
        ensures DigitFor(text[2 * i], bs[i] / 16) && DigitFor(text[2 * i + 1], bs[i] % 16)
      {
        assert DigitFor(text[2..][2 * (i - 1)], bs[1..][i - 1] / 16);
      }
    }
  }

  // ------------------------------------------------------------ framing

  function Quotes(n: nat): (s: string)
    ensures |s| == n && forall i :: 0 <= i < n ==> s[i] == '"'
  {
    seq(n, _ => '"')
  }

  lemma {:induction false} TrimLeftQuotes(n: nat, s: string)
    requires s == [] || s[0] != '"'
    ensures TrimLeft(Quotes(n) + s) == s
  {
    if n == 0 {
      assert Quotes(0) + s == s;
    } else {
      assert (Quotes(n) + s)[1..] == Quotes(n - 1) + s;
      TrimLeftQuotes(n - 1, s);
    }
  }

  lemma {:induction false} TrimRightQuotes(s: string, n: nat)
    requires s == [] || s[|s| - 1] != '"'
    ensures TrimRight(s + Quotes(n)) == s
  {
    if n == 0 {
      assert s + Quotes(0) == s;
    } else {
      assert (s + Quotes(n))[..|s| + n - 1] == s + Quotes(n - 1);
      TrimRightQuotes(s, n - 1);
    }
  }

  /** Quotes come off any text that does not begin or end with one. */
  lemma Unquoted(left: nat, body: string, right: nat)
    requires body != [] ==> body[0] != '"' && body[|body| - 1] != '"'
    ensures TrimRight(TrimLeft(Quotes(left) + (body + Quotes(right)))) == body
  {
    hide TrimLeft, TrimRight;
    if body == [] {
      assert Quotes(left) + (body + Quotes(right)) == Quotes(left + right) + [];
      TrimLeftQuotes(left + right, []);
      assert [] + Quotes(0) == [];
      TrimRightQuotes([], 0);
    } else {
      TrimLeftQuotes(left, body + Quotes(right));
      TrimRightQuotes(body, right);
    }
  }

  lemma Unprefixed(prefix: string, h: string)
    requires prefix == "0x" || prefix == ""
    requires forall i :: 0 <= i < |h| ==> DigitValue(h[i]).Some?
    ensures TrimZeroX(prefix + h) == h
  {
    assert TrimZeroX(h) == h;
    assert prefix == "0x" ==> (prefix + h)[2..] == h;
    assert prefix == "" ==> prefix + h == h;
  }

  /** Any quoting and an optional `0x` around the hex text of some bytes give back those bytes. */
  lemma FramedHex(left: nat, prefixed: bool, bs: seq<byte>, right: nat)
    ensures FromHex(Quotes(left) + (if prefixed then "0x" else "") + HexEncode(bs) + Quotes(right)) == Some(bs)
  {
    hide HexDecode, HexEncode, TrimLeft, TrimRight, TrimZeroX;
    var prefix := if prefixed then "0x" else "";
    var h := HexEncode(bs);
    HexRoundTrip(bs);
    HexDigitsOnly(bs);
    assert Quotes(left) + prefix + h + Quotes(right) == Quotes(left) + (prefix + h + Quotes(right));
    Unquoted(left, prefix + h, right);
    Unprefixed(prefix, h);
  }

  /** The prefix `0x`, so many times. */
  function ZeroXs(n: nat): (s: string)
    ensures |s| == 2 * n
  {
    if n == 0 then "" else "0x" + ZeroXs(n - 1)
  }

  lemma {:induction false} TrimZeroXs(n: nat, h: string)
    requires forall i :: 0 <= i < |h| ==> h[i] != 'x'
    ensures TrimZeroX(ZeroXs(n) + h) == h
  {
    if n == 0 {
      assert ZeroXs(0) + h == h;
    } else {
      assert (ZeroXs(n) + h)[2..] == ZeroXs(n - 1) + h;
      TrimZeroXs(n - 1, h);
    }
  }

  lemma {:induction false} TrimmedZeroXs(s: string) returns (n: nat)
    ensures s == ZeroXs(n) + TrimZeroX(s)
  {
    if |s| >= 2 && s[0] == '0' && s[1] == 'x' {
      var k := TrimmedZeroXs(s[2..]);
      n := k + 1;
      assert s == "0x" + s[2..];
    } else {
      n := 0;
    }
  }

  lemma {:induction false} NoQuoteInZeroXs(n: nat)
    ensures forall i :: 0 <= i < |ZeroXs(n)| ==> ZeroXs(n)[i] != '"'
  {
    if n > 0 { NoQuoteInZeroXs(n - 1); }
  }

  /** Quotes, any number of `0x`, two digits for each byte, quotes. */
  ghost predicate Framed(s: string, bs: seq<byte>)
  {
    exists left: nat, n: nat, text, right: nat :: FramedBy(s, left, n, text, right) && Spells(text, bs)
  }

  predicate FramedBy(s: string, left: nat, n: nat, text: string, right: nat)
  {
    s == Quotes(left) + (ZeroXs(n) + text + Quotes(right))
  }

  lemma DigitsOnly(text: string, bs: seq<byte>)
    requires Spells(text, bs)
    ensures forall i :: 0 <= i < |text| ==> text[i] != '"' && text[i] != 'x'
  {
    forall i | 0 <= i < |text|
      ensures text[i] != '"' && text[i] != 'x'
    {
      var b := bs[i / 2];
      assert DigitFor(text[2 * (i / 2)], b / 16);
      DigitValueIff(text[i], if i % 2 == 0 then b / 16 else b % 16);
    }
  }

  /** `Vec::from_hex` reads exactly the framed spellings of bytes. */
  lemma FromHexIff(s: string, bs: seq<byte>)
    ensures FromHex(s) == Some(bs) <==> Framed(s, bs)
  {
    hide HexDecode, TrimLeft, TrimRight, TrimZeroX, Spells, ZeroXs;
    if FromHex(s) == Some(bs) {
      var left := TrimmedLeft(s);
      var t := TrimLeft(s);
      TrimmedRight(t);
      var u := TrimRight(t);
      var right := |t| - |u|;
      assert t == u + Quotes(right);
      var n := TrimmedZeroXs(u);
      var text := TrimZeroX(u);
      HexDecodeIff(text, bs);
      assert s == Quotes(left) + t;
      assert FramedBy(s, left, n, text, right);
    }
    if left: nat, n: nat, text, right: nat :| FramedBy(s, left, n, text, right) && Spells(text, bs) {
      DigitsOnly(text, bs);
      NoQuoteInZeroXs(n);
      Unquoted(left, ZeroXs(n) + text, right);
      TrimZeroXs(n, text);
      HexDecodeIff(text, bs);
    }
  }

  // ------------------------------------------------------------ refusal

  lemma {:induction false} DecodesDigitsOnly(s: string, i: nat)
    requires HexDecode(s).Some? && i < |s|
    ensures DigitValue(s[i]).Some?
  {
    if i >= 2 { DecodesDigitsOnly(s[2..], i - 2); }
  }

  predicate HexTextChar(c: char) { c == '"' || c == 'x' || DigitValue(c).Some? }

  /** Text holding any character but a hex digit, a quote or an `x` is refused. */
  lemma {:induction false} RefusesOtherText(s: string, i: nat)
    requires FromHex(s).Some? && i < |s|
    ensures HexTextChar(s[i])
  {
    var t := TrimLeft(s);
    var n := TrimmedLeft(s);
    if i >= n {
      assert t[i - n] == s[i];
      var u := TrimRight(t);
      TrimmedRight(t);
      if i - n < |u| {
        assert u[i - n] == s[i];
        ZeroXText(u, i - n);
      }
    }
  }

  lemma {:induction false} TrimmedLeft(s: string) returns (n: nat)
    ensures n <= |s| && TrimLeft(s) == s[n..] && forall i :: 0 <= i < n ==> s[i] == '"'
  {
    if s != [] && s[0] == '"' {
      var k := TrimmedLeft(s[1..]);
      n := k + 1;
      assert s == [s[0]] + s[1..];
    } else {
      n := 0;
    }
  }

  lemma {:induction false} TrimmedRight(s: string)
    ensures |TrimRight(s)| <= |s| && TrimRight(s) == s[..|TrimRight(s)|]
    ensures forall i :: |TrimRight(s)| <= i < |s| ==> s[i] == '"'
  {
    if s != [] && s[|s| - 1] == '"' {
      TrimmedRight(s[..|s| - 1]);
    }
  }

  lemma {:induction false} ZeroXText(s: string, i: nat)
    requires HexDecode(TrimZeroX(s)).Some? && i < |s|
    ensures DigitValue(s[i]).Some? || s[i] == 'x'
  {
    hide DigitValue, HexDecode;
    assert DigitValue('0').Some? by { DigitRoundTrip(0); }
    if |s| >= 2 && s[0] == '0' && s[1] == 'x' {
      if i >= 2 { ZeroXText(s[2..], i - 2); }
    } else {
      DecodesDigitsOnly(s, i);
    }
  }
}
