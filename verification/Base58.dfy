/**
The base58 encoder and decoder. Bytes, symbols and words are natural numbers; the encoder
works on base-58 digits in a byte buffer, the decoder on 32-bit words.
*/
module Base58 {
  import opened Bits
  import opened Numerals
  import opened Outcome
  import opened Sequences

  const WORD: nat := 0x1_0000_0000

  const WORD_BITS: nat := 32

  // ---------- The alphabet ----------

  // The symbols as bytes, and for each ASCII code the digit or -1.
  datatype Alphabet = Alphabet(encode: seq<nat>, decode: seq<int>)

  // Names a symbol and a digit for the laws below; it is always true.
  ghost predicate Pair(c: int, i: int) {
    true
  }

  // Every symbol is found in the table, with a digit that it stands for, and nothing else is.
  ghost predicate IsAlphabet(a: Alphabet) {
    && |a.encode| == 58 && |a.decode| == 128
    && (forall c :: 0 <= c < 128 ==> -1 <= a.decode[c] < 58)
    && (forall i :: 0 <= i < 58 ==> a.encode[i] < 128)
    && (forall c, i {:trigger Pair(c, i)} :: 0 <= c < 128 && 0 <= i < 58 && a.decode[c] == i ==> a.encode[i] == c)
    && (forall c, i {:trigger Pair(c, i)} :: 0 <= c < 128 && 0 <= i < 58 && a.encode[i] == c ==> a.decode[c] >= i)
  }

  // An alphabet whose symbols are all different: symbols and digits determine each other.
  ghost predicate IsProper(a: Alphabet) {
    && IsAlphabet(a)
    && forall c, i {:trigger Pair(c, i)} :: 0 <= c < 128 && 0 <= i < 58 && a.encode[i] == c ==> a.decode[c] == i
  }

  method NewAlphabet(s: seq<nat>) returns (r: Result<Alphabet>)
    requires |s| == 58 ==> forall i :: 0 <= i < 58 ==> s[i] < 128
    ensures r.Ok? <==> |s| == 58
    ensures r.Ok? ==> IsAlphabet(r.value) && r.value.encode == s
    ensures r.Ok? && Distinct(s) ==> IsProper(r.value)
  {
    if |s| != 58 {
      return Err;
    }
    var decode := new int[128];
    for i := 0 to 128
      invariant forall c :: 0 <= c < i ==> decode[c] == -1
    {
      decode[i] := -1;
    }
    for i := 0 to 58
      invariant forall c :: 0 <= c < 128 ==> -1 <= decode[c] < i
      invariant forall c :: 0 <= c < 128 && decode[c] != -1 ==> s[decode[c]] == c
      invariant forall j :: 0 <= j < i ==> decode[s[j]] >= j
    {
      decode[s[i]] := i;
    }
    r := Ok(Alphabet(s, decode[..]));
  }

  // ---------- The encoder ----------

  function BufferSize(n: nat): (r: nat)
    ensures r > 0
  {
    n * 138 / 100 + 1
  }

  // The buffer has room for every number of n bytes.
  lemma {:induction false} Enough(n: nat)
    ensures Pow(256, n) <= Pow(58, BufferSize(n))
  {
    if n < 8 {
      EnoughForFew(n);
    } else {
      Enough(n - 8);
      var k := BufferSize(n - 8);
      assert k + 11 <= BufferSize(n);
      EightBytes(n - 8);
      ElevenDigits(k);
      PowMonotone(58, k + 11, BufferSize(n));
    }
  }

  lemma EightBytes(n: nat)
    ensures Pow(256, n + 8) == 0x1_0000_0000_0000_0000 * Pow(256, n)
  {
    assert Pow(256, n + 2) == 256 * (256 * Pow(256, n));
    assert Pow(256, n + 4) == 256 * (256 * Pow(256, n + 2));
    assert Pow(256, n + 6) == 256 * (256 * Pow(256, n + 4));
    assert Pow(256, n + 8) == 256 * (256 * Pow(256, n + 6));
  }

  lemma ElevenDigits(k: nat)
    ensures Pow(58, k + 11) >= 0x1_0000_0000_0000_0000 * Pow(58, k)
  {
    assert Pow(58, k + 2) == 58 * (58 * Pow(58, k));
    assert Pow(58, k + 4) == 58 * (58 * Pow(58, k + 2));
    assert Pow(58, k + 6) == 58 * (58 * Pow(58, k + 4));
    assert Pow(58, k + 8) == 58 * (58 * Pow(58, k + 6));
    assert Pow(58, k + 10) == 58 * (58 * Pow(58, k + 8));
    assert Pow(58, k + 11) == 58 * Pow(58, k + 10);
  }

  lemma EnoughForFew(n: nat)
    requires n < 8
    ensures Pow(256, n) <= Pow(58, BufferSize(n))
  {
    FewBytes(n);
    FewDigits(BufferSize(n));
  }

  lemma FewBytes(n: nat)
    requires n < 8
    ensures Pow(256, n) == [1, 256, 65536, 16777216, 4294967296, 1099511627776, 281474976710656, 72057594037927936][n]
  {
    if n > 0 {
      FewBytes(n - 1);
    }
  }

  lemma FewDigits(k: nat)
    requires k < 11
    ensures Pow(58, k) == [1, 58, 3364, 195112, 11316496, 656356768, 38068692544, 2207984167552, 128063081718016,
                           7427658739644928, 430804206899405824][k]
  {
    if k > 0 {
      FewDigits(k - 1);
    }
  }

  // One step of the carry: digit j is replaced.
  lemma CarryStep(ds: seq<nat>, j: nat, carry: nat, s: seq<nat>)
    requires j < |ds| && ds[j] < 58 && carry < 256
    ensures var t := carry + 256 * ds[j];
            t / 58 < 256
            && Num(256 * Num(0, ds[..j], 58) + t / 58, [t % 58] + s, 58)
               == Num(256 * Num(0, ds[..j + 1], 58) + carry, s, 58)
  {
    assert ds[..j + 1] == ds[..j] + [ds[j]];
    NumSnoc(0, ds[..j], ds[j], 58);
    var t := carry + 256 * ds[j];
    NumCons(256 * Num(0, ds[..j], 58) + t / 58, t % 58, s, 58);
  }

  // The state inside the loop of AppendByte: places behind j are done, the others untouched.
  ghost predicate Carrying(was: seq<nat>, now: seq<nat>, j: int, carry: nat, x: nat) {
    && |now| == |was| && -1 <= j < |was| && carry < 256
    && AreDigits(was, 58) && AreDigits(now, 58)
    && now[..j + 1] == was[..j + 1]
    && Num(256 * Num(0, was[..j + 1], 58) + carry, now[j + 1..], 58) == 256 * Num(0, was, 58) + x
  }

  lemma CarryOn(was: seq<nat>, now: seq<nat>, j: int, carry: nat, x: nat)
    requires Carrying(was, now, j, carry, x) && 0 <= j
    ensures var t := carry + 256 * now[j]; Carrying(was, now[j := t % 58], j - 1, t / 58, x)
  {
    var t := carry + 256 * now[j];
    assert now[j] == now[..j + 1][j] == was[j];
    CarryStep(was, j, carry, now[j + 1..]);
    assert now[j := t % 58][j..] == [t % 58] + now[j + 1..];
    assert now[j := t % 58][..j] == now[..j + 1][..j];
  }

  lemma CarryDone(was: seq<nat>, now: seq<nat>, j: int, x: nat)
    requires Carrying(was, now, j, 0, x) && forall i :: 0 <= i <= j ==> was[i] == 0
    ensures Num(0, now, 58) == 256 * Num(0, was, 58) + x
    ensures forall i :: 0 <= i <= j ==> now[i] == 0
  {
    forall i | 0 <= i <= j ensures now[i] == 0 {
      assert now[i] == now[..j + 1][i] == was[i];
    }
    ZerosFront(was, j + 1, 58);
    ZerosFront(now, j + 1, 58);
  }

  // One place of the buffer takes the carry.
  method CarryPlace(buf: array<nat>, j: nat, carry: nat, ghost was: seq<nat>, ghost x: nat) returns (carry1: nat)
    requires Carrying(was, buf[..], j, carry, x)
    modifies buf
    ensures Carrying(was, buf[..], j - 1, carry1, x)
  {
    CarryOn(was, buf[..], j, carry, x);
    var t := carry + 256 * buf[j];
    ghost var next := buf[..][j := t % 58];
    buf[j] := t % 58;
    carry1 := t / 58;
    assert buf[..] == next;
  }

  // Multiply the number in the buffer by 256 and add x. The places up to high are zero before
  // and after, and the carry never runs off the front.
  method AppendByte(buf: array<nat>, high: int, x: nat) returns (high1: int)
    requires -1 <= high < buf.Length && x < 256
    requires AreDigits(buf[..], 58) && forall i :: 0 <= i <= high ==> buf[i] == 0
    requires 256 * Num(0, buf[..], 58) + x < Pow(58, buf.Length)
    modifies buf
    ensures -1 <= high1 < buf.Length
    ensures AreDigits(buf[..], 58) && forall i :: 0 <= i <= high1 ==> buf[i] == 0
    ensures Num(0, buf[..], 58) == 256 * old(Num(0, buf[..], 58)) + x
  {
    var j, carry: nat := buf.Length - 1, x;
    ghost var was := buf[..];
    assert was[..j + 1] == was && was[j + 1..] == [];
    while j > high || carry != 0
      invariant Carrying(was, buf[..], j, carry, x)
      decreases j
    {
      if j == -1 {
        assert buf[..][0..] == buf[..];
        NoCarry(carry, buf[..], 58);
      }
      carry := CarryPlace(buf, j, carry, was, x);
      j := j - 1;
    }
    high1 := j;
    CarryDone(was, buf[..], j, x);
  }

  function Symbols(a: Alphabet, ds: seq<nat>): (r: seq<nat>)
    requires |a.encode| == 58 && AreDigits(ds, 58)
    ensures |r| == |ds| && forall i :: 0 <= i < |ds| ==> r[i] == a.encode[ds[i]]
  {
    if |ds| == 0 then [] else Symbols(a, ds[..|ds| - 1]) + [a.encode[ds[|ds| - 1]]]
  }

  // A zero symbol for each leading zero byte, then the base-58 digits of the rest.
  ghost function Encoded(bin: seq<nat>, a: Alphabet): seq<nat>
    requires |a.encode| == 58
  {
    var z := CountLeading(bin, 0);
    var v := Num(0, bin[z..], 256);
    Repeat(a.encode[0], z) + Symbols(a, Digits(v, 58))
  }

  // The base-58 digits of the bytes from zcount on, in a buffer of fixed size.
  method ConvertBytes(bin: seq<nat>, zcount: nat) returns (buf: array<nat>)
    requires AreDigits(bin, 256) && zcount <= |bin|
    ensures fresh(buf) && AreDigits(buf[..], 58) && Num(0, buf[..], 58) == Num(0, bin[zcount..], 256)
  {
    var size := BufferSize(|bin| - zcount);
    buf := new nat[size](_ => 0);
    Enough(|bin| - zcount);
    ZerosFront(buf[..], size, 58);
    assert bin[zcount..zcount] == [] && buf[..][size..] == [];
    var high := size - 1;
    for i := zcount to |bin|
      invariant -1 <= high < size && AreDigits(buf[..], 58) && forall k :: 0 <= k <= high ==> buf[k] == 0
      invariant Num(0, buf[..], 58) == Num(0, bin[zcount..i], 256)
    {
      assert bin[zcount..i + 1] == bin[zcount..i] + [bin[i]];
      NumSnoc(0, bin[zcount..i], bin[i], 256);
      FitsBuffer(bin[zcount..i + 1], |bin| - zcount, size);
      high := AppendByte(buf, high, bin[i]);
    }
    assert bin[zcount..|bin|] == bin[zcount..];
  }

  lemma FitsBuffer(bs: seq<nat>, n: nat, size: nat)
    requires AreDigits(bs, 256) && |bs| <= n && Pow(256, n) <= Pow(58, size)
    ensures Num(0, bs, 256) < Pow(58, size)
  {
    NumBelow(bs, 256);
    PowMonotone(256, |bs|, n);
  }

  method SkipZeros(buf: array<nat>) returns (j: nat)
    ensures j == CountLeading(buf[..], 0)
  {
    j := 0;
    while j < buf.Length && buf[j] == 0
      invariant j <= buf.Length && forall i :: 0 <= i < j ==> buf[i] == 0
    {
      j := j + 1;
    }
    CountIs(buf[..], 0, j);
  }

  method Spell(zcount: nat, buf: array<nat>, from: nat, a: Alphabet) returns (b58: seq<nat>)
    requires |a.encode| == 58 && AreDigits(buf[..], 58) && from <= buf.Length
    ensures AreDigits(buf[from..], 58) && b58 == Repeat(a.encode[0], zcount) + Symbols(a, buf[from..])
  {
    b58 := [];
    for i := 0 to zcount
      invariant b58 == Repeat(a.encode[0], i)
    {
      b58 := b58 + [a.encode[0]];
    }
    ghost var symbols := Symbols(a, buf[from..]);
    var j := from;
    while j < buf.Length
      invariant from <= j <= buf.Length && b58 == Repeat(a.encode[0], zcount) + symbols[..j - from]
    {
      b58 := b58 + [a.encode[buf[j]]];
      j := j + 1;
    }
  }

  method EncodingAlphabet(bin: seq<nat>, a: Alphabet) returns (b58: seq<nat>)
    requires AreDigits(bin, 256) && |a.encode| == 58
    ensures b58 == Encoded(bin, a)
  {
    var zcount := 0;
    while zcount < |bin| && bin[zcount] == 0
      invariant zcount <= |bin| && forall i :: 0 <= i < zcount ==> bin[i] == 0
    {
      zcount := zcount + 1;
    }
    CountIs(bin, 0, zcount);
    var buf := ConvertBytes(bin, zcount);
    var j := SkipZeros(buf);
    StripZeros(buf[..], j, Num(0, buf[..], 58), 58);
    assert buf[..][j..] == buf[j..];
    b58 := Spell(zcount, buf, j, a);
  }

  // ---------- The decoder ----------

  // Every symbol is one that the alphabet has a digit for.
  ghost predicate AreSymbols(a: Alphabet, str: seq<nat>)
    requires |a.decode| == 128
  {
    forall i :: 0 <= i < |str| ==> str[i] <= 127 && a.decode[str[i]] != -1
  }

  function DigitsOf(a: Alphabet, str: seq<nat>): (r: seq<nat>)
    requires IsAlphabet(a) && AreSymbols(a, str)
    ensures |r| == |str| && AreDigits(r, 58) && forall i :: 0 <= i < |str| ==> r[i] == a.decode[str[i]]
  {
    if |str| == 0 then [] else DigitsOf(a, str[..|str| - 1]) + [a.decode[str[|str| - 1]]]
  }

  lemma WordStep(ws: seq<nat>, j: nat, c: nat, s: seq<nat>)
    requires j < |ws| && ws[j] < WORD && c < 64
    ensures var t := ws[j] * 58 + c;
            t / WORD < 64
            && Num(58 * Num(0, ws[..j], WORD) + t / WORD, [t % WORD] + s, WORD)
               == Num(58 * Num(0, ws[..j + 1], WORD) + c, s, WORD)
  {
    assert ws[..j + 1] == ws[..j] + [ws[j]];
    NumSnoc(0, ws[..j], ws[j], WORD);
    var t := ws[j] * 58 + c;
    NumCons(58 * Num(0, ws[..j], WORD) + t / WORD, t % WORD, s, WORD);
  }

  ghost predicate Multiplying(was: seq<nat>, now: seq<nat>, j: int, c: nat, x: nat) {
    && |now| == |was| && -1 <= j < |was| && c < 64
    && AreDigits(was, WORD) && AreDigits(now, WORD)
    && now[..j + 1] == was[..j + 1]
    && Num(58 * Num(0, was[..j + 1], WORD) + c, now[j + 1..], WORD) == 58 * Num(0, was, WORD) + x
  }

  lemma MultiplyOn(was: seq<nat>, now: seq<nat>, j: int, c: nat, x: nat)
    requires Multiplying(was, now, j, c, x) && 0 <= j
    ensures var t := now[j] * 58 + c;
      t / WORD % 64 == t / WORD && Multiplying(was, now[j := t % WORD], j - 1, t / WORD, x)
  {
    var t := now[j] * 58 + c;
    assert now[j] == now[..j + 1][j] == was[j];
    WordStep(was, j, c, now[j + 1..]);
    assert now[j := t % WORD][j..] == [t % WORD] + now[j + 1..];
    assert now[j := t % WORD][..j] == now[..j + 1][..j];
  }

  // Multiply the number in the words by 58 and add x; what does not fit is returned.
  method AppendDigit(outi: array<nat>, x: nat) returns (c: nat)
    requires x < 58 && AreDigits(outi[..], WORD)
    modifies outi
    ensures AreDigits(outi[..], WORD)
    ensures Num(c, outi[..], WORD) == 58 * old(Num(0, outi[..], WORD)) + x
  {
    c := x;
    var j := outi.Length - 1;
    ghost var was := outi[..];
    assert was[..j + 1] == was && was[j + 1..] == [];
    while j >= 0
      invariant Multiplying(was, outi[..], j, c, x)
    {
      MultiplyOn(was, outi[..], j, c, x);
      var t := outi[j] * 58 + c;
      ghost var next := outi[..][j := t % WORD];
      c := t / WORD % 64;
      outi[j] := t % WORD;
      assert outi[..] == next;
      j := j - 1;
    }
    assert outi[..][0..] == outi[..];
  }

  // ---------- No number is too big ----------

  lemma {:induction false} PowWord(k: nat)
    ensures Pow(WORD, k) == Pow(256, 4 * k)
  {
    if k > 0 {
      PowWord(k - 1);
      FourBytes(4 * (k - 1));
    }
  }

  lemma FourBytes(n: nat)
    ensures Pow(256, n + 4) == WORD * Pow(256, n)
  {
    assert Pow(256, n + 2) == 256 * (256 * Pow(256, n));
    assert Pow(256, n + 4) == 256 * (256 * Pow(256, n + 2));
  }

  // n symbols make a number of at most n bytes: no carry is left.
  lemma NoWordCarry(c: nat, ws: seq<nat>, n: nat)
    requires AreDigits(ws, WORD) && n <= 4 * |ws| && Num(c, ws, WORD) < Pow(256, n)
    ensures c == 0
  {
    PowMonotone(256, n, 4 * |ws|);
    PowWord(|ws|);
    NoCarry(c, ws, WORD);
  }

  // The first word has no more than its share of the bytes.
  lemma FirstWord(ws: seq<nat>, left: nat)
    requires |ws| > 0 && AreDigits(ws, WORD) && Num(0, ws, WORD) < Pow(256, left + 4 * (|ws| - 1))
    ensures ws[0] < Pow(256, left)
  {
    var k := |ws| - 1;
    PowWord(k);
    PowSum(256, left, 4 * k);
    Leading(ws, WORD);
    if ws[0] >= Pow(256, left) {
      Times(Pow(256, left), ws[0], Pow(WORD, k), Pow(WORD, k));
    }
  }

  // The mask keeps the bits from k on, in a word; nothing is left of it when k is a whole word.
  function Zmask(k: nat): nat
    requires k <= WORD_BITS
  {
    if k == WORD_BITS then 0 else Grows(k, WORD_BITS); Pow2(WORD_BITS) - Pow2(k)
  }

  // 2^n - 2^k has no bits below k.
  lemma {:induction false} LowBitsClear(n: nat, k: nat, i: nat)
    requires i < k <= n
    ensures Pow2(k) <= Pow2(n) && !Bit(Pow2(n) - Pow2(k), i)
    decreases i
  {
    Grows(k, n);
    if i > 0 {
      LowBitsClear(n - 1, k - 1, i - 1);
      assert (Pow2(n) - Pow2(k)) / 2 == Pow2(n - 1) - Pow2(k - 1);
    }
  }

  lemma MaskClear(x: nat, k: nat)
    requires k <= WORD_BITS && x < Pow2(k)
    ensures And(x, Zmask(k)) == 0
  {
    HighMaskClear(x, WORD_BITS, k);
  }

  lemma HighMaskClear(x: nat, n: nat, k: nat)
    requires k <= n && x < Pow2(k)
    ensures Pow2(k) <= Pow2(n) && And(x, Pow2(n) - Pow2(k)) == 0
  {
    Grows(k, n);
    var m: nat := Pow2(n) - Pow2(k);
    forall i: nat ensures Bit(And(x, m), i) <==> Bit(0, i) {
      HighBits(x, n, k, i);
      BitAnd(x, m, i);
      BitZero(i);
    }
    SameBits(And(x, m), 0);
  }

  lemma HighBits(x: nat, n: nat, k: nat, i: nat)
    requires k <= n && x < Pow2(k)
    ensures Pow2(k) <= Pow2(n) && (!Bit(x, i) || !Bit(Pow2(n) - Pow2(k), i))
  {
    Grows(k, n);
    if i < k {
      LowBitsClear(n, k, i);
    } else {
      BelowPow2(x, k, i);
    }
  }

  lemma {:induction false} BytePower(k: nat)
    ensures Pow(256, k) == Pow2(8 * k)
  {
    if k > 0 {
      BytePower(k - 1);
      EightBits(8 * (k - 1));
    }
  }

  lemma EightBits(n: nat)
    ensures Pow2(n + 8) == 256 * Pow2(n)
  {
    assert Pow2(n + 2) == 4 * Pow2(n);
    assert Pow2(n + 4) == 4 * Pow2(n + 2);
    assert Pow2(n + 6) == 4 * Pow2(n + 4);
    assert Pow2(n + 8) == 4 * Pow2(n + 6);
  }

  // ---------- Words to bytes ----------

  // The k low bytes of w.
  function WordBytes(w: nat, k: nat): (r: seq<nat>)
    ensures |r| == k && AreDigits(r, 256)
    decreases k
  {
    if k == 0 then [] else WordBytes(w / 256, k - 1) + [w % 256]
  }

  lemma {:induction false} ShrSum(x: nat, a: nat, b: nat)
    ensures Shr(x, a + b) == Shr(Shr(x, a), b)
    decreases a
  {
    if a > 0 {
      ShrSum(x / 2, a - 1, b);
    }
  }

  lemma ShrByte(x: nat)
    ensures Shr(x, 8) == x / 256
  {
    ShrSum(x, 2, 6);
    ShrSum(x / 4, 2, 4);
    ShrSum(x / 16, 2, 2);
    assert Shr(x, 2) == x / 4;
    assert Shr(x / 4, 2) == x / 16;
    assert Shr(x / 16, 2) == x / 64;
    assert Shr(x / 64, 2) == x / 256;
  }

  lemma {:induction false} WordByteAt(w: nat, k: nat, t: nat)
    requires t < k
    ensures WordBytes(w, k)[t] == Shr(w, 8 * (k - 1 - t)) % 256
    decreases k
  {
    if t < k - 1 {
      WordByteAt(w / 256, k - 1, t);
      ShrByte(w);
      ShrSum(w, 8, 8 * (k - 2 - t));
    }
  }

  lemma {:induction false} WordBytesNum(acc: nat, w: nat, k: nat)
    requires w < Pow(256, k)
    ensures Num(acc, WordBytes(w, k), 256) == acc * Pow(256, k) + w
    decreases k
  {
    if k == 0 {
      assert Pow(256, 0) == 1;
    } else {
      WordBytesNum(acc, w / 256, k - 1);
      NumSnoc(acc, WordBytes(w / 256, k - 1), w % 256, 256);
      assert acc * (256 * Pow(256, k - 1)) == 256 * (acc * Pow(256, k - 1));
    }
  }

  // The bytes of all words, left of them from the first.
  function AllBytes(ws: seq<nat>, left: nat): (r: seq<nat>)
    requires |ws| > 0
    ensures |r| == left + 4 * (|ws| - 1) && AreDigits(r, 256)
  {
    var n := |ws| - 1;
    if n == 0 then WordBytes(ws[0], left) else AllBytes(ws[..n], left) + WordBytes(ws[n], 4)
  }

  lemma {:induction false} AllBytesNum(ws: seq<nat>, left: nat)
    requires |ws| > 0 && AreDigits(ws, WORD) && ws[0] < Pow(256, left)
    ensures Num(0, AllBytes(ws, left), 256) == Num(0, ws, WORD)
    decreases |ws|
  {
    var n := |ws| - 1;
    assert ws == ws[..n] + [ws[n]];
    NumSnoc(0, ws[..n], ws[n], WORD);
    if n == 0 {
      WordBytesNum(0, ws[0], left);
    } else {
      AllBytesNum(ws[..n], left);
      FourBytes(0);
      NumConcat(0, AllBytes(ws[..n], left), WordBytes(ws[n], 4), 256);
      WordBytesNum(Num(0, AllBytes(ws[..n], left), 256), ws[n], 4);
    }
  }

  // The first cnt - from bytes of ds have been written, starting at position from.
  ghost predicate Written(was: seq<nat>, now: seq<nat>, ds: seq<nat>, from: nat, cnt: nat) {
    && from <= cnt <= from + |ds| <= |was|
    && now == was[..from] + ds[..cnt - from] + was[cnt..]
  }

  lemma WrittenNext(was: seq<nat>, now: seq<nat>, ds: seq<nat>, from: nat, cnt: nat)
    requires Written(was, now, ds, from, cnt) && cnt < from + |ds|
    ensures Written(was, now[cnt := ds[cnt - from]], ds, from, cnt + 1)
  {
    var x := ds[cnt - from];
    assert now[cnt := x] == was[..from] + (ds[..cnt - from] + [x]) + was[cnt + 1..];
  }

  // So many bytes have been written, and the counter stands at the next one or has wrapped round.
  ghost predicate Writing(was: seq<nat>, now: seq<nat>, ds: seq<nat>, from: nat, cnt: nat, mask: nat) {
    Written(was, now, ds, from, cnt) && mask == if cnt == from + |ds| then 248 else 8 * (from + |ds| - 1 - cnt)
  }

  method WriteByte(w: nat, binu: array<nat>, cnt: nat, mask: nat, ghost was: seq<nat>, ghost ds: seq<nat>,
                   ghost from: nat)
    returns (mask1: nat)
    requires |ds| <= 4 && ds == WordBytes(w, |ds|) && mask <= 0x18 && Writing(was, binu[..], ds, from, cnt, mask)
    modifies binu
    ensures cnt < from + |ds| && Writing(was, binu[..], ds, from, cnt + 1, mask1)
  {
    WordByteAt(w, |ds|, cnt - from);
    WrittenNext(was, binu[..], ds, from, cnt);
    ghost var next := binu[..][cnt := ds[cnt - from]];
    binu[cnt] := Shr(w, mask) % 256;
    assert binu[..] == next;
    mask1 := (mask + 248) % 256;
  }

  lemma WrittenAll(was: seq<nat>, now: seq<nat>, ds: seq<nat>, from: nat)
    requires Written(was, now, ds, from, from + |ds|)
    ensures now[..from + |ds|] == was[..from] + ds
    ensures forall i :: from + |ds| <= i < |now| ==> now[i] == was[i]
  {
    assert ds[..|ds|] == ds;
  }

  // Write the low bytes of w. The counter is a byte: it ends the loop by wrapping round.
  method WriteWord(w: nat, left: nat, binu: array<nat>, from: nat) returns (cnt: nat)
    requires 0 < left <= 4 && from + left <= binu.Length
    modifies binu
    ensures cnt == from + left && binu[..cnt] == old(binu[..from]) + WordBytes(w, left)
    ensures forall i :: cnt <= i < binu.Length ==> binu[i] == old(binu[i])
  {
    var mask: nat := (left - 1) * 8;
    ghost var was, ds := binu[..], WordBytes(w, left);
    cnt := from;
    while mask <= 0x18
      invariant Writing(was, binu[..], ds, from, cnt, mask)
      decreases from + left - cnt
    {
      mask := WriteByte(w, binu, cnt, mask, was, ds, from);
      cnt := cnt + 1;
    }
    WrittenAll(was, binu[..], ds, from);
    assert binu[..][..cnt] == binu[..cnt] && was[..from] == old(binu[..from]);
  }

  method WriteBytes(outi: array<nat>, left: nat, binu: array<nat>) returns (cnt: nat)
    requires outi != binu && outi.Length > 0 && 0 < left <= 4 && left + 4 * (outi.Length - 1) <= binu.Length
    modifies binu
    ensures cnt == left + 4 * (outi.Length - 1) && binu[..cnt] == AllBytes(outi[..], left)
    ensures forall i :: cnt <= i < binu.Length ==> binu[i] == old(binu[i])
  {
    cnt := WriteWord(outi[0], left, binu, 0);
    assert outi[..1] == [outi[0]];
    for j := 1 to outi.Length
      invariant cnt == left + 4 * (j - 1) && binu[..cnt] == AllBytes(outi[..j], left)
      invariant forall i :: cnt <= i < binu.Length ==> binu[i] == old(binu[i])
    {
      assert outi[..j + 1][..j] == outi[..j];
      cnt := WriteWord(outi[j], 4, binu, cnt);
    }
    assert outi[..outi.Length] == outi[..];
  }

  // ---------- Decoding ----------

  function Min(x: nat, y: nat): nat {
    if x <= y then x else y
  }

  // The value of the symbols as bytes, behind a zero for each leading zero symbol, in at most
  // as many bytes as there are symbols.
  ghost function Decoded(a: Alphabet, str: seq<nat>): seq<nat>
    requires IsAlphabet(a) && AreSymbols(a, str)
  {
    var v := Num(0, DigitsOf(a, str), 58);
    var bytes := Digits(v, 256);
    DigitsBelow(a, str, |str|);
    DigitsLength(v, |str|);
    if |bytes| == 0 then Repeat(0, |str|) else Repeat(0, Min(CountLeading(str, a.encode[0]), |str| - |bytes|)) + bytes
  }

  lemma DigitsLength(v: nat, n: nat)
    requires v < Pow(256, n)
    ensures |Digits(v, 256)| <= n
  {
    var s := Digits(v, 256);
    if |s| > 0 {
      Leading(s, 256);
      PowReflects(256, |s| - 1, n);
    }
  }

  lemma DigitsBelow(a: Alphabet, str: seq<nat>, n: nat)
    requires IsAlphabet(a) && AreSymbols(a, str) && |str| <= n
    ensures Num(0, DigitsOf(a, str), 58) < Pow(256, n)
  {
    DigitsBelowPow(DigitsOf(a, str));
    PowMonotone(256, |str|, n);
  }

  // Take one more digit in. Neither of the two checks for a number that is too big can fail.
  method ReadDigit(outi: array<nat>, d: nat, left: nat, ghost n: nat)
    requires 0 < left <= 4 && outi.Length > 0 && n == left + 4 * (outi.Length - 1)
    requires d < 58 && AreDigits(outi[..], WORD) && 58 * Num(0, outi[..], WORD) + d < Pow(256, n)
    modifies outi
    ensures AreDigits(outi[..], WORD) && Num(0, outi[..], WORD) == 58 * old(Num(0, outi[..], WORD)) + d
    ensures outi[0] < Pow(256, left)
  {
    var c := AppendDigit(outi, d);
    NoWordCarry(c, outi[..], n);
    FirstWord(outi[..], left);
    BytePower(left);
    MaskClear(outi[0], 8 * left);
    if c > 0 {
      assert false;
    }
    if And(outi[0], Zmask(8 * left)) != 0 {
      assert false;
    }
  }

  // Read all symbols into the words, or find one that is not in the alphabet.
  method ReadSymbols(str: seq<nat>, a: Alphabet, outi: array<nat>, left: nat) returns (ok: bool)
    requires IsAlphabet(a) && 0 < left <= 4 && outi.Length > 0 && |str| == left + 4 * (outi.Length - 1)
    requires forall i :: 0 <= i < outi.Length ==> outi[i] == 0
    modifies outi
    ensures ok <==> AreSymbols(a, str)
    ensures ok ==> AreDigits(outi[..], WORD) && outi[0] < Pow(256, left)
    ensures ok ==> Num(0, outi[..], WORD) == Num(0, DigitsOf(a, str), 58)
  {
    ZerosFront(outi[..], outi.Length, WORD);
    assert outi[..][outi.Length..] == [];
    PowPositive(256, left);
    for k := 0 to |str|
      invariant AreSymbols(a, str[..k])
      invariant AreDigits(outi[..], WORD) && Num(0, outi[..], WORD) == Num(0, DigitsOf(a, str[..k]), 58)
      invariant outi[0] < Pow(256, left)
    {
      var r := str[k];
      if r > 127 {
        return false;
      }
      if a.decode[r] == -1 {
        return false;
      }
      OneMoreSymbol(a, str, k);
      ReadDigit(outi, a.decode[r], left, |str|);
    }
    assert str[..|str|] == str;
    ok := true;
  }

  lemma OneMoreSymbol(a: Alphabet, str: seq<nat>, k: nat)
    requires IsAlphabet(a) && k < |str| && AreSymbols(a, str[..k]) && str[k] <= 127 && a.decode[str[k]] != -1
    ensures AreSymbols(a, str[..k + 1])
    ensures Num(0, DigitsOf(a, str[..k + 1]), 58)
         == 58 * Num(0, DigitsOf(a, str[..k]), 58) + a.decode[str[k]]
          < Pow(256, |str|)
  {
    var upTo := str[..k + 1];
    forall i | 0 <= i < |upTo| ensures upTo[i] <= 127 && a.decode[upTo[i]] != -1 {
      if i < k {
        assert upTo[i] == str[..k][i];
      }
    }
    assert str[..k + 1][..k] == str[..k];
    NumSnoc(0, DigitsOf(a, str[..k]), a.decode[str[k]], 58);
    DigitsBelow(a, str[..k + 1], |str|);
  }

  // s is the sequence of bytes of v, behind some of the zeros in front of them.
  ghost predicate IsCut(bytes: seq<nat>, s: seq<nat>, cnt: nat, zcount: nat) {
    |s| <= cnt && bytes == if |s| == 0 then Repeat(0, cnt) else Repeat(0, Min(zcount, cnt - |s|)) + s
  }

  lemma DecodedIs(a: Alphabet, str: seq<nat>, v: nat, bytes: seq<nat>)
    requires IsAlphabet(a) && AreSymbols(a, str) && v == Num(0, DigitsOf(a, str), 58)
    requires IsCut(bytes, Digits(v, 256), |str|, CountLeading(str, a.encode[0]))
    ensures Decoded(a, str) == bytes
  {
  }

  lemma CutIs(ds: seq<nat>, zcount: nat, v: nat, n: nat, start: nat)
    requires AreDigits(ds, 256) && v == Num(0, ds, 256) && n == CountLeading(ds, 0)
    requires start == if n == |ds| || n < zcount then 0 else n - zcount
    ensures IsCut(ds[start..], Digits(v, 256), |ds|, zcount)
  {
    StripZeros(ds, n, v, 256);
    ZerosThen(ds, start, n);
    CutAt(ds, zcount, n, start, ds[n..]);
  }

  lemma CutAt(ds: seq<nat>, zcount: nat, n: nat, start: nat, tail: seq<nat>)
    requires n + |tail| == |ds| && start == if n == |ds| || n < zcount then 0 else n - zcount
    requires ds[start..] == Repeat(0, n - start) + tail
    ensures IsCut(ds[start..], tail, |ds|, zcount)
  {
    if n == |ds| {
      assert tail == [];
    } else {
      assert Min(zcount, n) == n - start;
    }
  }

  lemma ZerosThen(ds: seq<nat>, start: nat, n: nat)
    requires start <= n <= |ds| && forall i :: 0 <= i < n ==> ds[i] == 0
    ensures ds[start..] == Repeat(0, n - start) + ds[n..]
  {
    var l, r := ds[start..], Repeat(0, n - start) + ds[n..];
    assert |l| == |r|;
    forall i | 0 <= i < |l| ensures l[i] == r[i] {
    }
  }

  // Leave out the zeros at the front, save for zcount of them.
  method CutZeros(binu: array<nat>, cnt: nat, zcount: nat, ghost v: nat) returns (bytes: seq<nat>)
    requires cnt <= binu.Length && AreDigits(binu[..cnt], 256) && forall i :: cnt <= i < binu.Length ==> binu[i] == 0
    requires v == Num(0, binu[..cnt], 256)
    ensures IsCut(bytes, Digits(v, 256), cnt, zcount)
  {
    ghost var ds := binu[..cnt];
    for n := 0 to binu.Length
      invariant forall i :: 0 <= i < n ==> binu[i] == 0
    {
      if binu[n] > 0 {
        assert ds[n] != 0;
        CountIs(ds, 0, n);
        var start := n - zcount;
        if start < 0 {
          start := 0;
        }
        CutIs(ds, zcount, v, n, start);
        assert binu[start..cnt] == ds[start..];
        return binu[start..cnt];
      }
    }
    CountIs(ds, 0, cnt);
    CutIs(ds, zcount, v, cnt, 0);
    assert ds[0..] == ds;
    return binu[..cnt];
  }

  // The number of words for n bytes, and how many of the bytes are in the first word.
  method Layout(n: nat) returns (outisz: nat, left: nat)
    requires n > 0
    ensures outisz > 0 && 0 < left <= 4 && n == left + 4 * (outisz - 1)
  {
    outisz, left := (n + 3) / 4, n % 4;
    if left == 0 {
      left := 4;
    }
  }

  method WordsToBytes(outi: array<nat>, left: nat, n: nat) returns (binu: array<nat>)
    requires outi.Length > 0 && 0 < left <= 4 && n == left + 4 * (outi.Length - 1)
    requires AreDigits(outi[..], WORD) && outi[0] < Pow(256, left)
    ensures binu.Length >= n && forall i :: n <= i < binu.Length ==> binu[i] == 0
    ensures AreDigits(binu[..n], 256) && Num(0, binu[..n], 256) == Num(0, outi[..], WORD)
  {
    AllBytesNum(outi[..], left);
    binu := new nat[(n + 3) * 3](_ => 0);
    var cnt := WriteBytes(outi, left, binu);
    assert cnt == n;
  }

  // The symbols as bytes, with zeros in front.
  method ConvertSymbols(str: seq<nat>, a: Alphabet) returns (r: Result<array<nat>>)
    requires IsAlphabet(a) && |str| > 0
    ensures r.Ok? <==> AreSymbols(a, str)
    ensures r.Ok? ==> r.value.Length >= |str| && forall i :: |str| <= i < r.value.Length ==> r.value[i] == 0
    ensures r.Ok? ==> AreDigits(r.value[..|str|], 256) && Num(0, r.value[..|str|], 256) == Num(0, DigitsOf(a, str), 58)
  {
    var outisz, left := Layout(|str|);
    var outi := new nat[outisz](_ => 0);
    var ok := ReadSymbols(str, a, outi, left);
    if !ok {
      return Err;
    }
    var binu := WordsToBytes(outi, left, |str|);
    r := Ok(binu);
  }

  method DecodingAlphabet(str: seq<nat>, a: Alphabet) returns (r: Result<seq<nat>>)
    requires IsAlphabet(a)
    ensures r == if |str| == 0 || !AreSymbols(a, str) then Err else Ok(Decoded(a, str))
  {
    if |str| == 0 {
      return Err;
    }
    var zcount := 0;
    while zcount < |str| && str[zcount] == a.encode[0]
      invariant zcount <= |str| && forall i :: 0 <= i < zcount ==> str[i] == a.encode[0]
    {
      zcount := zcount + 1;
    }
    CountIs(str, a.encode[0], zcount);
    var binu := ConvertSymbols(str, a);
    if binu.Err? {
      return Err;
    }
    ghost var v := Num(0, DigitsOf(a, str), 58);
    var bytes := CutZeros(binu.value, |str|, zcount, v);
    DecodedIs(a, str, v, bytes);
    r := Ok(bytes);
  }

  // ---------- The round trip ----------

  // Symbols stand for the digits that they were written for.
  lemma SymbolsBack(a: Alphabet, str: seq<nat>, ds: seq<nat>)
    requires IsProper(a) && |str| == |ds| && AreDigits(ds, 58)
    requires forall i :: 0 <= i < |str| ==> str[i] == a.encode[ds[i]]
    ensures AreSymbols(a, str) && DigitsOf(a, str) == ds
  {
    forall i | 0 <= i < |str| ensures str[i] <= 127 && a.decode[str[i]] == ds[i] {
      assert Pair(str[i], ds[i]);
    }
  }

  // The symbols of an encoding, read back: zeros, and the digits again.
  lemma ReadBack(a: Alphabet, z: nat, ds: seq<nat>, str: seq<nat>)
    requires IsProper(a) && AreDigits(ds, 58) && (|ds| > 0 ==> ds[0] != 0)
    requires str == Repeat(a.encode[0], z) + Symbols(a, ds)
    ensures AreSymbols(a, str) && DigitsOf(a, str) == Repeat(0, z) + ds && CountLeading(str, a.encode[0]) == z
  {
    SymbolsBack(a, str, Repeat(0, z) + ds);
    if |ds| > 0 {
      assert str[z] == a.encode[ds[0]] && Pair(str[z], ds[0]) && Pair(str[z], 0);
    }
    CountIs(str, a.encode[0], z);
  }

  // A number has no more bytes than base-58 digits.
  lemma NoMoreBytes(v: nat)
    ensures |Digits(v, 256)| <= |Digits(v, 58)|
  {
    var ds := Digits(v, 58);
    DigitsBelowPow(ds);
    DigitsLength(v, |ds|);
  }

  lemma DigitsBelowPow(ds: seq<nat>)
    requires AreDigits(ds, 58)
    ensures Num(0, ds, 58) < Pow(256, |ds|)
  {
    NumBelow(ds, 58);
    PowLarger(58, 256, |ds|);
  }

  // Bytes that do not start with a zero are the digits of their value.
  lemma TailBytes(bs: seq<nat>)
    requires AreDigits(bs, 256) && (|bs| > 0 ==> bs[0] != 0)
    ensures var v := Num(0, bs, 256); Digits(v, 256) == bs
  {
    NumeralUnique(Digits(Num(0, bs, 256), 256), bs, Num(0, bs, 256), 256);
  }

  // What is decoded from z zero symbols and the digits of v.
  lemma DecodeParts(a: Alphabet, z: nat, v: nat, ds: seq<nat>, str: seq<nat>)
    requires IsProper(a) && ds == Digits(v, 58) && AreDigits(ds, 58)
    requires str == Repeat(a.encode[0], z) + Symbols(a, ds)
    ensures AreSymbols(a, str) && Decoded(a, str) == Repeat(0, z) + Digits(v, 256)
    ensures |str| == 0 <==> z == 0 && |Digits(v, 256)| == 0
  {
    ReadBack(a, z, ds, str);
    LeadingZeros(z, ds);
    var bs := Digits(v, 256);
    ZeroNumeral(ds, 58);
    ZeroNumeral(bs, 256);
    assert IsCut(Repeat(0, z) + bs, bs, |str|, z) by {
      NoMoreBytes(v);
    }
    DecodedIs(a, str, v, Repeat(0, z) + Digits(v, 256));
  }

  lemma LeadingZeros(z: nat, ds: seq<nat>)
    ensures Num(0, Repeat(0, z) + ds, 58) == Num(0, ds, 58)
  {
    ZerosFront(Repeat(0, z) + ds, z, 58);
    assert (Repeat(0, z) + ds)[z..] == ds;
  }

  lemma RoundTripOf(bin: seq<nat>, a: Alphabet, str: seq<nat>)
    requires IsProper(a) && AreDigits(bin, 256) && str == Encoded(bin, a)
    ensures AreSymbols(a, str) && Decoded(a, str) == bin && (|str| == 0 <==> |bin| == 0)
  {
    var z := CountLeading(bin, 0);
    var tail := bin[z..];
    var v := Num(0, tail, 256);
    DecodeParts(a, z, v, Digits(v, 58), str);
    TailBytes(tail);
    ZerosThen(bin, 0, z);
    assert bin[0..] == bin;
  }

  // Decoding the encoding of any bytes but the empty sequence gives the same bytes.
  lemma RoundTrip(bin: seq<nat>, a: Alphabet)
    requires IsProper(a) && AreDigits(bin, 256)
    ensures AreSymbols(a, Encoded(bin, a)) && Decoded(a, Encoded(bin, a)) == bin
    ensures |Encoded(bin, a)| == 0 <==> |bin| == 0
  {
    RoundTripOf(bin, a, Encoded(bin, a));
  }

  method EncodeThenDecode(bin: seq<nat>, symbols: seq<nat>) returns (r: Result<seq<nat>>)
    requires AreDigits(bin, 256) && (|symbols| == 58 ==> forall i :: 0 <= i < 58 ==> symbols[i] < 128)
    ensures |symbols| == 58 && Distinct(symbols) ==> r == if |bin| == 0 then Err else Ok(bin)
  {
    var a := NewAlphabet(symbols);
    if a.Err? {
      return Err;
    }
    var str := EncodingAlphabet(bin, a.value);
    r := DecodingAlphabet(str, a.value);
    if Distinct(symbols) {
      RoundTrip(bin, a.value);
    }
  }
}
