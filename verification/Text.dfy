/** Bitsequences as strings of binary and hexadecimal digits, most significant digit first. */
module Text {
  import opened Words
  import opened Bitseqs
  import opened Wrappers

  // ----- digits -----

  const DIGITS := "0123456789abcdef"

  /** The value of a hexadecimal digit, or 16 when c is not one. */
  function DigitOf(c: char): nat {
    if '0' <= c <= '9' then (c - '0') as nat
    else if 'a' <= c <= 'f' then (c - 'a') as nat + 10
    else if 'A' <= c <= 'F' then (c - 'A') as nat + 10
    else 16
  }

  /** The digits and letters of both cases stand for their values, and nothing else is a digit. */
  lemma DigitValues(c: char)
    ensures DigitOf(c) <= 16
    ensures forall v :: 0 <= v < 16 ==> (DigitOf(c) == v <==> c == "0123456789abcdef"[v] || c == "0123456789ABCDEF"[v])
  {
  }

  predicate AllHex(str: string) {
    forall k :: 0 <= k < |str| ==> DigitOf(str[k]) < 16
  }

  /** Digits as they are printed. */
  predicate LowerHex(str: string) {
    forall k :: 0 <= k < |str| ==> '0' <= str[k] <= '9' || 'a' <= str[k] <= 'f'
  }

  predicate AllBinary(str: string) {
    forall k :: 0 <= k < |str| ==> str[k] == '0' || str[k] == '1'
  }

  /** Bit i of a number written in binary. Only '1' counts as a 1-bit. */
  ghost predicate BinBit(str: string, i: nat) {
    i < |str| && str[|str| - 1 - i] == '1'
  }

  /** Bit i of a number written in hexadecimal. */
  ghost predicate HexBit(str: string, i: nat) {
    i / 4 < |str| && Bit(DigitOf(str[|str| - 1 - i / 4]), i % 4)
  }

  /** The indices a binary string stands for. */
  ghost function BinIx(str: string): set<nat> {
    set i: nat | i < |str| && BinBit(str, i)
  }

  ghost function HexIx(str: string): set<nat> {
    set i: nat | i < 4 * |str| && HexBit(str, i)
  }

  /** The n binary digits of a set of indices. */
  ghost function BinText(n: nat, x: set<nat>): string {
    seq(n, p requires 0 <= p < n => if n - 1 - p in x then '1' else '0')
  }

  // ----- numbers to digits and back, as the standard library does it -----

  function FormatBin(w: nat): string {
    if w < 2 then [DIGITS[w]] else FormatBin(w / 2) + [DIGITS[w % 2]]
  }

  function FormatHex(w: nat): (str: string)
    ensures LowerHex(str)
  {
    if w < 16 then [DIGITS[w]] else FormatHex(w / 16) + [DIGITS[w % 16]]
  }

  function ParseHex(str: string): nat
    requires AllHex(str)
  {
    if str == "" then 0 else 16 * ParseHex(str[..|str| - 1]) + DigitOf(str[|str| - 1])
  }

  lemma {:induction false} FormatBinBits(w: nat, k: nat)
    requires w < Pow2(k) && k > 0
    ensures AllBinary(FormatBin(w)) && 0 < |FormatBin(w)| <= k
    ensures forall i: nat :: BinBit(FormatBin(w), i) <==> Bit(w, i)
    decreases w
  {
    var f := FormatBin(w);
    if w >= 2 {
      FormatBinBits(w / 2, k - 1);
    }
    forall i: nat
      ensures BinBit(f, i) <==> Bit(w, i)
    {
      if i > 0 && w < 2 {
        assert w / 2 == 0;
        ZeroBit(i - 1);
      } else if i > 0 {
        assert BinBit(f, i) <==> BinBit(FormatBin(w / 2), i - 1);
      }
    }
  }

  lemma NibbleBits(w: nat, v: nat, i: nat)
    requires v < 16
    ensures Bit(16 * w + v, i) <==> if i < 4 then Bit(v, i) else Bit(w, i - 4)
  {
    var n := 16 * w + v;
    assert n / 2 == 8 * w + v / 2;
    assert n / 2 / 2 == 4 * w + v / 2 / 2;
    assert n / 2 / 2 / 2 == 2 * w + v / 2 / 2 / 2;
    assert n / 2 / 2 / 2 / 2 == w;
    if i >= 4 {
      assert Bit(n, i) <==> Bit(n / 2, i - 1);
      assert Bit(n / 2, i - 1) <==> Bit(n / 2 / 2, i - 2);
      assert Bit(n / 2 / 2, i - 2) <==> Bit(n / 2 / 2 / 2, i - 3);
    } else if i == 2 {
      assert Bit(n, 2) <==> Bit(n / 2, 1);
      assert Bit(v, 2) <==> Bit(v / 2, 1);
    } else if i == 3 {
      assert Bit(n, 3) <==> Bit(n / 2, 2);
      assert Bit(n / 2, 2) <==> Bit(n / 2 / 2, 1);
      assert Bit(v, 3) <==> Bit(v / 2, 2);
      assert Bit(v / 2, 2) <==> Bit(v / 2 / 2, 1);
    }
  }

  lemma SixteenTimes(k: nat)
    ensures Pow2(4 * (k + 1)) == 16 * Pow2(4 * k)
  {
    Pow2Add(4, 4 * k);
    assert Pow2(4) == 16;
  }

  lemma {:induction false} FormatHexBits(w: nat, k: nat)
    requires w < Pow2(4 * k) && k > 0
    ensures AllHex(FormatHex(w)) && 0 < |FormatHex(w)| <= k
    ensures forall i: nat :: HexBit(FormatHex(w), i) <==> Bit(w, i)
    decreases w
  {
    if w < 16 {
      OneHexDigit(w);
    } else {
      SixteenTimes(k - 1);
      FormatHexBits(w / 16, k - 1);
      AppendHexDigit(FormatHex(w / 16), w / 16, w % 16);
    }
  }

  lemma AppendHexDigit(high: string, w: nat, v: nat)
    requires v < 16 && forall i: nat :: HexBit(high, i) <==> Bit(w, i)
    ensures forall i: nat :: HexBit(high + [DIGITS[v]], i) <==> Bit(16 * w + v, i)
  {
    OneHexDigit(v);
    forall i: nat
      ensures HexBit(high + [DIGITS[v]], i) <==> Bit(16 * w + v, i)
    {
      NibbleBits(w, v, i);
      HexConcat(high, [DIGITS[v]], i);
    }
  }

  lemma OneHexDigit(v: nat)
    requires v < 16
    ensures DigitOf(DIGITS[v]) == v
    ensures forall i: nat :: HexBit([DIGITS[v]], i) <==> Bit(v, i)
  {
    assert Pow2(4) == 16;
    forall i: nat
      ensures HexBit([DIGITS[v]], i) <==> Bit(v, i)
    {
      if i >= 4 {
        HighBit(v, 4, i);
      }
    }
  }

  lemma {:induction false} ParseHexBits(str: string)
    requires AllHex(str)
    ensures ParseHex(str) < Pow2(4 * |str|)
    ensures forall i: nat :: Bit(ParseHex(str), i) <==> HexBit(str, i)
  {
    if str == "" {
      forall i: nat
        ensures !Bit(0, i)
      {
        ZeroBit(i);
      }
    } else {
      var init, v := str[..|str| - 1], DigitOf(str[|str| - 1]);
      ParseHexBits(init);
      SixteenTimes(|init|);
      forall i: nat
        ensures Bit(ParseHex(str), i) <==> HexBit(str, i)
      {
        NibbleBits(ParseHex(init), v, i);
        if i >= 4 {
          assert HexBit(str, i) <==> HexBit(init, i - 4);
        }
      }
    }
  }

  // ----- padding and concatenation -----

  lemma BinConcat(a: string, b: string, i: nat)
    ensures BinBit(a + b, i) <==> if i < |b| then BinBit(b, i) else BinBit(a, i - |b|)
  {
  }

  lemma HexConcat(a: string, b: string, i: nat)
    ensures HexBit(a + b, i) <==> if i < 4 * |b| then HexBit(b, i) else HexBit(a, i - 4 * |b|)
  {
  }

  lemma ZeroPad(str: string, i: nat)
    ensures BinBit("0" + str, i) <==> BinBit(str, i)
    ensures HexBit("0" + str, i) <==> HexBit(str, i)
  {
    BinConcat("0", str, i);
    HexConcat("0", str, i);
    ZeroBit(i % 4);
  }

  // ----- printing -----

  /** The binary digits of the first `words` words, or of all of the bitsequence. */
  ghost predicate BinShows(str: string, s: Bitseq, words: nat) {
    AllBinary(str) && forall i: nat :: BinBit(str, i) <==> i < 64 * words && At(s.data, i)
  }

  ghost predicate HexShows(str: string, s: Bitseq, words: nat) {
    LowerHex(str) && AllHex(str) && forall i: nat :: HexBit(str, i) <==> i < 64 * words && At(s.data, i)
  }

  /** The binary representation: one digit for each bit of the length. */
  method ToBinString(s: Bitseq) returns (str: string)
    requires s.Valid()
    ensures str == BinText(s.bits, s.Ix())
  {
    str := "";
    var parts := DivCeil(s.bits, 64);
    var i := 0;
    while i < parts && i < |s.data|
      invariant i <= parts && BinShows(str, s, i)
      invariant if i < parts then |str| == 64 * i else |str| <= s.bits
    {
      var t := FormatBin(s.data[i]);
      WordBinary(s, i);
      while i < parts - 1 && |t| < 64
        invariant |t| <= (if i < parts - 1 then 64 else s.bits - 64 * i)
        invariant AllBinary(t) && forall b: nat :: BinBit(t, b) <==> Bit(s.data[i], b)
      {
        forall b: nat
          ensures BinBit("0" + t, b) <==> BinBit(t, b)
        {
          ZeroPad(t, b);
        }
        t := "0" + t;
      }
      PrependBin(str, t, s, i);
      str := t + str;
      i := i + 1;
    }
    while |str| < s.bits
      invariant |str| <= s.bits && BinShows(str, s, |s.data|)
    {
      forall b: nat
        ensures BinBit("0" + str, b) <==> BinBit(str, b)
      {
        ZeroPad(str, b);
      }
      str := "0" + str;
    }
    forall p | 0 <= p < |str|
      ensures str[p] == BinText(s.bits, s.Ix())[p]
    {
      assert BinBit(str, |str| - 1 - p) <==> str[p] == '1';
      InIx(s, |str| - 1 - p);
    }
  }

  /** The digits of word i, at most as many as the bitsequence has bits left. */
  lemma WordBinary(s: Bitseq, i: nat)
    requires s.Valid() && i < |s.data|
    ensures var t := FormatBin(s.data[i]);
            && AllBinary(t)
            && (forall b: nat :: BinBit(t, b) <==> Bit(s.data[i], b))
            && |t| <= (if i < |s.data| - 1 then 64 else s.bits - 64 * i)
  {
    var k := if i < |s.data| - 1 then 64 else s.bits - 64 * i;
    WordBound(s, i, k);
    FormatBinBits(s.data[i], k);
  }

  lemma WordBound(s: Bitseq, i: nat, k: nat)
    requires s.Valid() && i < |s.data| && (k == 64 || (i == |s.data| - 1 && k >= s.bits - 64 * i))
    ensures s.data[i] < Pow2(k)
  {
    WordRange();
    if k < 64 {
      forall j | j >= k
        ensures !Bit(s.data[i], j)
      {
        if j < 64 {
          AtWord(s, i, j);
        } else {
          WordHigh(s.data[i], j);
        }
      }
      BitsBound(s.data[i], k);
    } else {
      Pow2Monotone(64, k);
    }
  }

  lemma PrependBin(str: string, t: string, s: Bitseq, i: nat)
    requires i < |s.data| && BinShows(str, s, i) && |str| == 64 * i
    requires AllBinary(t) && forall b: nat :: BinBit(t, b) <==> Bit(s.data[i], b)
    ensures BinShows(t + str, s, i + 1)
  {
    forall b: nat
      ensures BinBit(t + str, b) <==> b < 64 * (i + 1) && At(s.data, b)
    {
      BinConcat(t, str, b);
      if b >= 64 * i {
        if b >= 64 * (i + 1) {
          WordHigh(s.data[i], b - 64 * i);
        } else {
          assert b / 64 == i && b % 64 == b - 64 * i;
        }
      }
    }
  }

  /** The hexadecimal representation: one digit for every four bits, the topmost perhaps for fewer. */
  method ToHexString(s: Bitseq) returns (str: string)
    requires s.Valid()
    ensures |str| == DivCeil(s.bits, 4) && LowerHex(str) && AllHex(str) && HexIx(str) == s.Ix()
  {
    str := "";
    var parts := DivCeil(s.bits, 64);
    var i := 0;
    while i < parts && i < |s.data|
      invariant i <= parts && HexShows(str, s, i)
      invariant if i < parts then |str| == 16 * i else |str| <= DivCeil(s.bits, 4)
    {
      var t := FormatHex(s.data[i]);
      WordHex(s, i);
      while i < parts - 1 && |t| < 16
        invariant |t| <= (if i < parts - 1 then 16 else DivCeil(s.bits, 4) - 16 * i)
        invariant LowerHex(t) && AllHex(t) && forall b: nat :: HexBit(t, b) <==> Bit(s.data[i], b)
      {
        forall b: nat
          ensures HexBit("0" + t, b) <==> HexBit(t, b)
        {
          ZeroPad(t, b);
        }
        t := "0" + t;
      }
      PrependHex(str, t, s, i);
      str := t + str;
      i := i + 1;
    }
    while |str| < DivCeil(s.bits, 4)
      invariant |str| <= DivCeil(s.bits, 4) && HexShows(str, s, |s.data|)
    {
      forall b: nat
        ensures HexBit("0" + str, b) <==> HexBit(str, b)
      {
        ZeroPad(str, b);
      }
      str := "0" + str;
    }
  }

  lemma WordHex(s: Bitseq, i: nat)
    requires s.Valid() && i < |s.data|
    ensures var t := FormatHex(s.data[i]);
            && AllHex(t)
            && (forall b: nat :: HexBit(t, b) <==> Bit(s.data[i], b))
            && |t| <= (if i < |s.data| - 1 then 16 else DivCeil(s.bits, 4) - 16 * i)
  {
    var k := if i < |s.data| - 1 then 16 else DivCeil(s.bits, 4) - 16 * i;
    WordBound(s, i, 4 * k);
    FormatHexBits(s.data[i], k);
  }

  lemma PrependHex(str: string, t: string, s: Bitseq, i: nat)
    requires i < |s.data| && HexShows(str, s, i) && |str| == 16 * i
    requires LowerHex(t) && AllHex(t) && forall b: nat :: HexBit(t, b) <==> Bit(s.data[i], b)
    ensures HexShows(t + str, s, i + 1)
  {
    forall b: nat
      ensures HexBit(t + str, b) <==> b < 64 * (i + 1) && At(s.data, b)
    {
      HexConcat(t, str, b);
      if b >= 64 * i {
        if b >= 64 * (i + 1) {
          WordHigh(s.data[i], b - 64 * i);
        } else {
          assert b / 64 == i && b % 64 == b - 64 * i;
        }
      }
    }
  }

  // ----- parsing -----

  /** Parses binary digits; every character but '1' counts as a 0-bit, and only "" is refused. */
  method FromBinString(str: string) returns (r: Option<Bitseq>)
    ensures r.None? <==> str == ""
    ensures r.Some? ==> r.value.Valid() && r.value.bits == |str| && r.value.Ix() == BinIx(str)
  {
    if |str| == 0 {
      return None;
    }
    var s := NewBitseq(|str|);
    var d := -1;
    for i := 0 to |str|
      invariant s.Valid() && s.bits == |str|
      invariant d == (i + 63) / 64 - 1
      invariant forall j: nat :: j in s.Ix() <==> j < i && BinBit(str, j)
    {
      if i % 64 == 0 {
        d := d + 1;
      }
      if str[|str| - i - 1] == '1' {
        assert d == i / 64;
        s := s.PutBit(Op.Or, i);
      }
    }
    return Some(s);
  }

  /** Parses binary digits; for "" it complains and goes on with the empty bitsequence. */
  method MustFromBinString(str: string) returns (s: Bitseq)
    ensures s.Valid() && s.bits == |str| && s.Ix() == BinIx(str)
  {
    var r := FromBinString(str);
    if r.Some? {
      return r.value;
    }
    s := NewBitseq(0);
  }

  /** Parses hexadecimal digits sixteen at a time, from the end of the string. */
  method FromHexString(str: string) returns (r: Option<Bitseq>)
    ensures r.None? <==> str == "" || !AllHex(str)
    ensures r.Some? ==> r.value.Valid() && r.value.bits == 4 * |str| && r.value.Ix() == HexIx(str)
  {
    if |str| == 0 {
      return None;
    }
    var length := DivCeil(|str|, 16);
    var data: seq<Word> := [];
    for i := 0 to length - 1
      invariant |data| == i
      invariant AllHex(str[|str| - 16 * i..])
      invariant forall b: nat :: At(data, b) <==> b < 64 * i && HexBit(str, b)
    {
      var at := |str| - i * 16 - 16;
      var u := ParseUint(str[at..at + 16]);
      if u.None? {
        var k :| 0 <= k < 16 && DigitOf(str[at..at + 16][k]) >= 16;
        assert DigitOf(str[at + k]) >= 16;
        return None;
      }
      AppendWord(str, data, at, at + 16, u.value);
      assert str[at..] == str[at..at + 16] + str[at + 16..];
      data := data + [u.value];
    }
    var l := |str| - (length - 1) * 16;
    var u := ParseUint(str[0..l]);
    if u.None? {
      var k :| 0 <= k < l && DigitOf(str[0..l][k]) >= 16;
      assert DigitOf(str[k]) >= 16;
      return None;
    }
    assert str == str[0..l] + str[l..];
    AppendWord(str, data, 0, l, u.value);
    data := data + [u.value];
    return Some(Bitseq(data, |str| * 4));
  }

  /** strconv.ParseUint in base 16, on at most sixteen characters. */
  method ParseUint(str: string) returns (r: Option<Word>)
    requires 0 < |str| <= 16
    ensures r.None? <==> !AllHex(str)
    ensures r.Some? ==> r.value == ParseHex(str)
  {
    var u := 0;
    for k := 0 to |str|
      invariant AllHex(str[..k]) && u == ParseHex(str[..k])
    {
      if DigitOf(str[k]) >= 16 {
        return None;
      }
      assert str[..k + 1][..k] == str[..k];
      u := 16 * u + DigitOf(str[k]);
    }
    assert str[..|str|] == str;
    ParseHexBits(str);
    Pow2Monotone(4 * |str|, 64);
    WordRange();
    return Some(u);
  }

  lemma AppendWord(str: string, data: seq<Word>, from: nat, to: nat, u: Word)
    requires from < to <= |str| && to <= from + 16 && |str| - to == 16 * |data|
    requires from == 0 || to == from + 16
    requires AllHex(str[from..to]) && u == ParseHex(str[from..to])
    requires forall b: nat :: At(data, b) <==> b < 64 * |data| && HexBit(str, b)
    ensures forall b: nat :: At(data + [u], b) <==> b < 64 * |data| + 4 * (to - from) && HexBit(str, b)
  {
    var t := str[from..to];
    ParseHexBits(t);
    forall b: nat
      ensures At(data + [u], b) <==> b < 64 * |data| + 4 * (to - from) && HexBit(str, b)
    {
      var c := b - 64 * |data|;
      if 0 <= c < 64 {
        assert b / 64 == |data| && b % 64 == c;
        assert Bit(u, c) <==> HexBit(t, c);
        if c < 4 * |t| {
          assert b / 4 == 16 * |data| + c / 4 && b % 4 == c % 4;
          assert t[|t| - 1 - c / 4] == str[|str| - 1 - b / 4];
        }
      } else if c < 0 {
        assert At(data + [u], b) <==> At(data, b);
      }
    }
  }

  /** The source's pattern ^0x[0-9A-Fa-f]+$. */
  predicate IsHexLiteral(str: string) {
    |str| > 2 && str[..2] == "0x" && AllHex(str[2..])
  }

  /** The source's pattern ^0b[01]+$. */
  predicate IsBinLiteral(str: string) {
    |str| > 2 && str[..2] == "0b" && AllBinary(str[2..])
  }

  method FromString(str: string) returns (r: Result<Bitseq>)
    ensures r.Ok? <==> IsHexLiteral(str) || IsBinLiteral(str)
    ensures r.Ok? ==> r.value.Valid()
    ensures IsHexLiteral(str) ==> r.value.bits == 4 * (|str| - 2) && r.value.Ix() == HexIx(str[2..])
    ensures IsBinLiteral(str) ==> r.value.bits == |str| - 2 && r.value.Ix() == BinIx(str[2..])
    ensures r.Ok? <==>
              && |str| > 2 && str[0] == '0'
              && ((str[1] == 'x' && AllHex(str[2..])) || (str[1] == 'b' && AllBinary(str[2..])))
    ensures r.Ok? && str[1] == 'b' ==> r.value.bits == |str| - 2 && r.value.Ix() == BinIx(str[2..])
    ensures r.Ok? && str[1] == 'x' ==> r.value.bits == 4 * (|str| - 2) && r.value.Ix() == HexIx(str[2..])
  {
    assert |str| > 2 ==> str[..2] == [str[0], str[1]];
    if IsHexLiteral(str) {
      var s := FromHexString(str[2..]);
      return Ok(s.value);
    }
    if IsBinLiteral(str) {
      var s := FromBinString(str[2..]);
      return Ok(s.value);
    }
    return Err("cannot parse bitseq " + str);
  }

  /** Parses a bitsequence and gives it the wanted length; "0" and "-1" clear and set all its bits. */
  method ParseBitseq(str: string, length: nat) returns (r: Result<Bitseq>)
    ensures r.Ok? <==> str == "0" || str == "-1" || IsHexLiteral(str) || IsBinLiteral(str)
    ensures r.Ok? ==> r.value.Valid() && r.value.bits == length
    ensures str == "0" ==> r.value.Ix() == {}
    ensures str == "-1" ==> forall i: nat :: i in r.value.Ix() <==> i < length
    ensures IsHexLiteral(str) ==> r.value.Ix() == Fitted(HexIx(str[2..]), 4 * (|str| - 2), length)
    ensures IsBinLiteral(str) ==> r.value.Ix() == Fitted(BinIx(str[2..]), |str| - 2, length)
  {
    if str == "0" {
      var zero := NewBitseq(length);
      return Ok(zero);
    }
    if str == "-1" {
      var none := NewBitseq(0);
      var all := none.SetRange(0, length - 1);
      return Ok(all);
    }
    var s := FromString(str);
    if s.Err? {
      return s;
    }
    var fit := s.value.Fit(length);
    return Ok(fit);
  }

  // ----- round trips -----

  lemma BinTextIx(n: nat, x: set<nat>)
    requires forall i :: i in x ==> i < n
    ensures BinIx(BinText(n, x)) == x && AllBinary(BinText(n, x))
  {
    forall i: nat | i < n
      ensures BinBit(BinText(n, x), i) <==> i in x
    {
    }
  }

  /** A string is what printing gives back for the bitsequence it parses to iff it is binary. */
  lemma BinTextOfIx(str: string)
    ensures BinText(|str|, BinIx(str)) == str <==> AllBinary(str)
  {
    var t := BinText(|str|, BinIx(str));
    BinTextIx(|str|, BinIx(str));
    if AllBinary(str) {
      forall p | 0 <= p < |str|
        ensures t[p] == str[p]
      {
        assert BinBit(str, |str| - 1 - p) <==> str[p] == '1';
      }
    }
  }

  /** Distinct bitsequences never print the same: the text determines length and indices. */
  lemma BinTextInjective(s: Bitseq, t: Bitseq)
    requires s.Valid() && t.Valid() && BinText(s.bits, s.Ix()) == BinText(t.bits, t.Ix())
    ensures s == t
  {
    BinTextIx(s.bits, s.Ix());
    BinTextIx(t.bits, t.Ix());
    assert s.bits == |BinText(s.bits, s.Ix())|;
    Canonical(s, t);
  }

  /** Printing in binary and parsing gives the bitsequence back, whatever its length. */
  method BinRoundTrip(s: Bitseq) returns (r: Bitseq)
    requires s.Valid()
    ensures r == s
  {
    var str := ToBinString(s);
    BinTextIx(s.bits, s.Ix());
    r := MustFromBinString(str);
    Canonical(r, s);
  }

  /** Printing in hexadecimal and parsing with the same length gives the bitsequence back. */
  method HexRoundTrip(s: Bitseq) returns (r: Result<Bitseq>)
    requires s.Valid() && s.bits > 0
    ensures r == Ok(s)
  {
    var str := ToHexString(s);
    var text := "0x" + str;
    assert text[2..] == str;
    r := ParseBitseq(text, s.bits);
    assert IsHexLiteral(text);
    HexFits(s.Ix(), s.bits);
    Canonical(r.value, s);
  }

  lemma NotMultiple(bits: nat, n: nat)
    requires bits < n < bits + 4 && n % 4 == 0
    ensures bits % 64 != 0
  {
  }

  /** Dropping the unused bits of the topmost digit never hits the case where Fit wipes a word. */
  lemma HexFits(x: set<nat>, bits: nat)
    requires forall i :: i in x ==> i < bits
    ensures Fitted(x, 4 * DivCeil(bits, 4), bits) == x
  {
    var n := 4 * DivCeil(bits, 4);
    assert bits <= n < bits + 4 && n % 4 == 0;
    if bits != n {
      NotMultiple(bits, n);
      assert Fitted(x, n, bits) == set i | i in x && i < bits;
    }
  }

  /** Parsing more digits than the length calls for loses a whole word when the length is a multiple of 64. */
  lemma ParseWipesWord()
    ensures var str := seq(17, _ => 'f');
            && IsHexLiteral("0x" + str) && (forall i: nat :: i < 64 ==> i in HexIx(str))
            && Fitted(HexIx(str), 4 * 17, 64) == {}
            && Fitted(HexIx(str), 4 * 17, 63) != {}
  {
    var str := seq(17, _ => 'f');
    assert ("0x" + str)[..2] == "0x" && ("0x" + str)[2..] == str;
    assert Pow2(4) == 16;
    forall i: nat | i < 64
      ensures HexBit(str, i)
    {
      MaskBit(4, i % 4);
    }
    assert 0 in Fitted(HexIx(str), 4 * 17, 63);
  }
}
