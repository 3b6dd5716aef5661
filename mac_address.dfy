/**
 * MAC address text: the validator `isValidMac` and the generator `randomMac`
 * of macshift.cpp, with the hexadecimal rendering and reading that specify them.
 *
 * A MAC address is 12 hexadecimal characters (6 bytes, no separators).
 * The generator renders the low 48 bits of a number as 12 upper-case digits;
 * `HexRender` is that rendering as a function and `HexValue` reads a digit
 * string back as a big-endian number.
 */
module MacAddress {

  /** The digit table the generator indexes with `temp & 0xF`. */
  const HexDigits: string := "0123456789ABCDEF"

  /** A character accepted by the validator: 0-9, a-f or A-F. */
  predicate IsHexChar(c: char) {
    ('0' <= c <= '9') || ('a' <= c <= 'f') || ('A' <= c <= 'F')
  }

  /** A character the generator can produce: 0-9 or A-F. */
  predicate IsUpperHexChar(c: char) {
    ('0' <= c <= '9') || ('A' <= c <= 'F')
  }

  predicate AllHex(s: string) {
    forall i :: 0 <= i < |s| ==> IsHexChar(s[i])
  }

  /** The pattern /[0-9a-fA-F]{12}/ an explicit address must match. */
  predicate ValidMac(s: string) {
    |s| == 12 && AllHex(s)
  }

  /** Checks a string against the pattern, index by index, stopping at the first bad character. */
  method IsValidMac(str: string) returns (ok: bool)
    ensures ok <==> (|str| == 12 && forall i :: 0 <= i < |str| ==> IsHexChar(str[i]))
    ensures ok <==> ValidMac(str)
  {
    if |str| != 12 {
      return false;
    }
    var i := 0;
    while i < 12
      invariant 0 <= i <= 12
      invariant forall k :: 0 <= k < i ==> IsHexChar(str[k])
    {
      var c := str[i];
      var good := ('0' <= c <= '9') || ('a' <= c <= 'f') || ('A' <= c <= 'F');
      if !good {
        return false;
      }
      i := i + 1;
    }
    return true;
  }

  /** The value of one hexadecimal digit, either case. */
  function DigitValue(c: char): (d: nat)
    requires IsHexChar(c)
    ensures d < 16
    ensures '0' <= c <= '9' ==> d == c as int - '0' as int
    ensures 'a' <= c <= 'f' ==> d == c as int - 'a' as int + 10
    ensures 'A' <= c <= 'F' ==> d == c as int - 'A' as int + 10
  {
    if '0' <= c <= '9' then c as int - '0' as int
    else if 'a' <= c <= 'f' then c as int - 'a' as int + 10
    else c as int - 'A' as int + 10
  }

  /** The upper-case form of a hexadecimal character (a-f become A-F). */
  function UpperHex(c: char): (u: char)
    requires IsHexChar(c)
    ensures IsUpperHexChar(u)
    ensures DigitValue(u) == DigitValue(c)
  {
    if 'a' <= c <= 'f' then (c as int - 32) as char else c
  }

  function UpperHexString(s: string): (u: string)
    requires AllHex(s)
    ensures |u| == |s|
    ensures forall i :: 0 <= i < |s| ==> u[i] == UpperHex(s[i])
  {
    if s == [] then [] else UpperHexString(s[..|s| - 1]) + [UpperHex(s[|s| - 1])]
  }

  function Pow16(n: nat): (p: nat)
    ensures p > 0
  {
    if n == 0 then 1 else 16 * Pow16(n - 1)
  }

  /** Reads a digit string as a big-endian hexadecimal number. */
  function HexValue(s: string): (v: nat)
    requires AllHex(s)
    ensures v < Pow16(|s|)
  {
    if s == [] then 0 else HexValue(s[..|s| - 1]) * 16 + DigitValue(s[|s| - 1])
  }

  /**
   * The `n` low-order hexadecimal digits of `v`, most significant first,
   * upper case: the string the generator's second loop builds.
   */
  function HexRender(v: nat, n: nat): (r: string)
    ensures |r| == n
  {
    if n == 0 then "" else HexRender(v / 16, n - 1) + [HexDigits[v % 16]]
  }

  /** Every character of a rendering is an upper-case hexadecimal digit. */
  lemma {:induction false} RenderedDigits(v: nat, n: nat)
    ensures forall i :: 0 <= i < n ==> IsUpperHexChar(HexRender(v, n)[i])
  {
    if n > 0 {
      RenderedDigits(v / 16, n - 1);
      DigitChar(v % 16);
      var r := HexRender(v, n);
      assert r == HexRender(v / 16, n - 1) + [HexDigits[v % 16]];
      forall i | 0 <= i < n ensures IsUpperHexChar(r[i]) {
        if i < n - 1 {
          assert r[i] == HexRender(v / 16, n - 1)[i];
        }
      }
    }
  }

  /** Two upper-case digits for one byte: high nibble, then low nibble. */
  function HexByte(b: nat): (r: string)
    requires b < 256
  {
    [HexDigits[b / 16], HexDigits[b % 16]]
  }

  /** Entry `d` of the digit table is an upper-case digit whose value is `d`. */
  lemma DigitChar(d: nat)
    requires d < 16
    ensures IsUpperHexChar(HexDigits[d])
    ensures DigitValue(HexDigits[d]) == d
  {
    assert HexDigits == ['0', '1', '2', '3', '4', '5', '6', '7', '8', '9', 'A', 'B', 'C', 'D', 'E', 'F'];
  }

  /** Reading an upper-case digit and looking its value up in the table gives it back. */
  lemma DigitOfValue(c: char)
    requires IsUpperHexChar(c)
    ensures HexDigits[DigitValue(c)] == c
  {
    assert HexDigits == ['0', '1', '2', '3', '4', '5', '6', '7', '8', '9', 'A', 'B', 'C', 'D', 'E', 'F'];
  }

  /** Every rendering of 12 digits passes the validator. */
  lemma {:induction false} RenderedIsValid(v: nat)
    ensures ValidMac(HexRender(v, 12))
  {
    var r := HexRender(v, 12);
    RenderedDigits(v, 12);
    forall i | 0 <= i < |r|
      ensures IsHexChar(r[i])
    {
      assert IsUpperHexChar(r[i]);
    }
  }

  /** Round trip: reading a rendering back yields the value modulo 16^n. */
  lemma {:induction false} HexRoundTrip(v: nat, n: nat)
    ensures AllHex(HexRender(v, n))
    ensures HexValue(HexRender(v, n)) == v % Pow16(n)
  {
    var r := HexRender(v, n);
    assert AllHex(r) by {
      RenderedDigits(v, n);
      forall i | 0 <= i < |r| ensures IsHexChar(r[i]) { assert IsUpperHexChar(r[i]); }
    }
    if n > 0 {
      HexRoundTrip(v / 16, n - 1);
      var front := HexRender(v / 16, n - 1);
      assert r == front + [HexDigits[v % 16]];
      assert r[..|r| - 1] == front;
      DigitChar(v % 16);
      assert HexValue(r) == ((v / 16) % Pow16(n - 1)) * 16 + v % 16;
      ModSplit(v, Pow16(n - 1));
    }
  }

  /** (v / 16 mod p) * 16 + v mod 16 is v mod 16p. */
  lemma ModSplit(v: nat, p: nat)
    requires p > 0
    ensures ((v / 16) % p) * 16 + v % 16 == v % (16 * p)
  {
    var q := v / 16;
    var a := q / p;
    var b := q % p;
    assert q == a * p + b;
    assert v == q * 16 + v % 16;
    assert v == (16 * p) * a + (b * 16 + v % 16);
    assert 0 <= b * 16 + v % 16 < 16 * p;
    ModUnique(v, 16 * p, a, b * 16 + v % 16);
  }

  lemma ModUnique(v: nat, m: nat, a: nat, t: nat)
    requires m > 0 && t < m && v == m * a + t
    ensures v % m == t
  {
    var a' := v / m;
    var t' := v % m;
    assert v == m * a' + t';
    if a' < a {
      MulMonotone(m, a' + 1, a);
      assert false;
    } else if a' > a {
      MulMonotone(m, a + 1, a');
      assert false;
    }
  }

  lemma MulMonotone(m: nat, x: nat, y: nat)
    requires x <= y
    ensures m * x <= m * y
  {
    assert m * y == m * x + m * (y - x);
  }

  /** Inverse round trip: rendering the value of a digit string gives its upper-case form. */
  lemma {:induction false} HexValueRender(s: string)
    requires AllHex(s)
    ensures HexRender(HexValue(s), |s|) == UpperHexString(s)
  {
    if s != [] {
      var front := s[..|s| - 1];
      var c := s[|s| - 1];
      HexValueRender(front);
      var v := HexValue(s);
      assert v == HexValue(front) * 16 + DigitValue(c);
      assert v / 16 == HexValue(front) && v % 16 == DigitValue(c);
      DigitOfValue(UpperHex(c));
      assert HexDigits[v % 16] == UpperHex(c);
      assert UpperHexString(s) == UpperHexString(front) + [UpperHex(c)];
    }
  }

  /** Every valid MAC is the rendering of exactly one value below 2^48, up to letter case. */
  lemma ValidMacDecodes(s: string)
    requires ValidMac(s)
    ensures HexValue(s) < Pow16(12)
    ensures HexRender(HexValue(s), 12) == UpperHexString(s)
    ensures forall v: nat :: v < Pow16(12) && HexRender(v, 12) == UpperHexString(s) ==> v == HexValue(s)
  {
    HexValueRender(s);
    HexRoundTrip(HexValue(s), 12);
    ModBelow(HexValue(s), Pow16(12));
    forall v: nat | v < Pow16(12) && HexRender(v, 12) == UpperHexString(s)
      ensures v == HexValue(s)
    {
      HexRoundTrip(v, 12);
      ModBelow(v, Pow16(12));
    }
  }

  /** Shifting a byte into `x` appends its two digits to `x`'s rendering. */
  lemma RenderByteStep(v: nat, x: nat, b: nat, m: nat, n: nat)
    requires b < 256 && v == x * 256 + b && m == n + 2
    ensures HexRender(v, m) == HexRender(x, n) + HexByte(b)
  {
    assert v / 16 == x * 16 + b / 16;
    assert v % 16 == b % 16;
    assert (v / 16) / 16 == x;
    assert (v / 16) % 16 == b / 16;
    assert HexRender(v, m) == HexRender(v / 16, n + 1) + [HexDigits[v % 16]];
    assert HexRender(v / 16, n + 1) == HexRender(x, n) + [HexDigits[b / 16]];
  }

  /**
   * The value the generator's first loop builds: starting from the prefix,
   * each draw shifts in one byte (`temp <<= 8; temp |= rand() & 0xFF`).
   * The low byte is zero after the shift, so the OR is an addition; for the
   * non-negative draws of rand(), `& 0xFF` is `% 256`.
   */
  function Pack(prefix: nat, draws: seq<nat>): nat
  {
    if draws == [] then prefix
    else Pack(prefix, draws[..|draws| - 1]) * 256 + draws[|draws| - 1] % 256
  }

  /** With three draws the packed value is prefix<<24 | b0<<16 | b1<<8 | b2. */
  lemma PackThree(prefix: nat, draws: seq<nat>)
    requires |draws| == 3
    ensures Pack(prefix, draws)
         == prefix * 0x100_0000 + (draws[0] % 256) * 0x1_0000 + (draws[1] % 256) * 0x100 + draws[2] % 256
  {
    PackBytes(prefix, draws);
  }

  /** The prefix chosen by `validMacs.at(rand() % validMacs.size())`. */
  function ChosenPrefix(table: seq<nat>, pick: nat): nat
    requires |table| > 0
  {
    table[pick % |table|]
  }

  /** The address the generator returns for the given draws. */
  function GeneratedMac(table: seq<nat>, pick: nat, draws: seq<nat>): string
    requires |table| > 0
  {
    HexRender(Pack(ChosenPrefix(table, pick), draws), 12)
  }

  /** What the generated address is: the facts `randomMac` promises, stated about `GeneratedMac`. */
  lemma GeneratedMacFacts(table: seq<nat>, pick: nat, draws: seq<nat>)
    requires |table| > 0
    requires |draws| == 3
    ensures var mac := GeneratedMac(table, pick, draws);
      && |mac| == 12 && (forall i :: 0 <= i < |mac| ==> IsUpperHexChar(mac[i]))
      && ValidMac(mac)
      && HexValue(mac) == Pack(ChosenPrefix(table, pick), draws) % Pow16(12)
      && mac[..6] == HexRender(ChosenPrefix(table, pick), 6)
      && mac[6..] == HexByte(draws[0] % 256) + HexByte(draws[1] % 256) + HexByte(draws[2] % 256)
      && (HexValue(mac[..6]) == ChosenPrefix(table, pick) <==> ChosenPrefix(table, pick) < Pow16(6))
  {
    var prefix := ChosenPrefix(table, pick);
    var packed := Pack(prefix, draws);
    var mac := GeneratedMac(table, pick, draws);
    RenderedIsValid(packed);
    RenderedDigits(packed, 12);
    HexRoundTrip(packed, 12);
    Layout(prefix, draws);
    var front := HexRender(prefix, 6);
    var back := HexByte(draws[0] % 256) + HexByte(draws[1] % 256) + HexByte(draws[2] % 256);
    assert mac == front + back;
    assert mac[..6] == front && mac[6..] == back;
    HexRoundTrip(prefix, 6);
    if prefix < Pow16(6) {
      ModBelow(prefix, Pow16(6));
    }
  }

  /**
   * `randomMac`: the vendor prefix is `table[pick % |table|]` and the three
   * low bytes come from `draws`; the digits are produced from the least
   * significant nibble upwards and inserted at the front of the result.
   * What the result looks like is stated by GeneratedMacFacts.
   */
  method RandomMac(table: seq<nat>, pick: nat, draws: seq<nat>) returns (result: string)
    requires |table| > 0
    requires |draws| == 3
    ensures result == GeneratedMac(table, pick, draws)
    ensures ValidMac(result)
  {
    var temp := table[pick % |table|];
    ghost var prefix := temp;
    var i := 0;
    while i < 3
      invariant 0 <= i <= 3
      invariant temp == Pack(prefix, draws[..i])
    {
      PackNext(prefix, draws, i);
      temp := temp * 256 + draws[i] % 256;
      i := i + 1;
    }
    assert draws[..3] == draws;
    ghost var packed := temp;

    result := "";
    var j := 11;
    while j >= 0
      invariant -1 <= j <= 11
      invariant HexRender(temp, j + 1) + result == HexRender(packed, 12)
    {
      RenderLast(temp, j);
      result := [HexDigits[temp % 16]] + result;
      temp := temp / 16;
      j := j - 1;
    }
    assert result == HexRender(packed, 12);
    RenderedIsValid(packed);
  }

  lemma ModBelow(v: nat, m: nat)
    requires v < m
    ensures v % m == v
  {
  }

  /** The twelve digits are the prefix's six low digits followed by the three bytes. */
  lemma Layout(prefix: nat, draws: seq<nat>)
    requires |draws| == 3
    ensures HexRender(Pack(prefix, draws), 12)
         == HexRender(prefix, 6) + HexByte(draws[0] % 256) + HexByte(draws[1] % 256) + HexByte(draws[2] % 256)
  {
    var b0, b1, b2 := draws[0] % 256, draws[1] % 256, draws[2] % 256;
    var p1 := prefix * 256 + b0;
    var p2 := p1 * 256 + b1;
    var p3 := p2 * 256 + b2;
    PackBytes(prefix, draws);
    assert Pack(prefix, draws) == p3;
    RenderByteStep(p1, prefix, b0, 8, 6);
    RenderByteStep(p2, p1, b1, 10, 8);
    RenderByteStep(p3, p2, b2, 12, 10);
  }

  /** Three draws pack as three successive byte shifts. */
  lemma PackBytes(prefix: nat, draws: seq<nat>)
    requires |draws| == 3
    ensures Pack(prefix, draws) == ((prefix * 256 + draws[0] % 256) * 256 + draws[1] % 256) * 256 + draws[2] % 256
  {
    PackLast(prefix, draws[..1]);
    assert draws[..1][..0] == [];
    assert draws[..2][..1] == draws[..1];
    PackLast(prefix, draws[..2]);
    assert draws[..3] == draws;
    PackLast(prefix, draws);
  }

  /** One more draw shifts one more byte into the packed value. */
  lemma PackNext(prefix: nat, draws: seq<nat>, i: nat)
    requires i < |draws|
    ensures Pack(prefix, draws[..i + 1]) == Pack(prefix, draws[..i]) * 256 + draws[i] % 256
  {
    assert draws[..i + 1][..i] == draws[..i];
  }

  /** The last digit of a rendering is the low nibble; the rest renders the value shifted right by 4. */
  lemma RenderLast(v: nat, n: nat)
    ensures HexRender(v, n + 1) == HexRender(v / 16, n) + [HexDigits[v % 16]]
  {
  }

  lemma PackLast(prefix: nat, draws: seq<nat>)
    requires |draws| > 0
    ensures Pack(prefix, draws) == Pack(prefix, draws[..|draws| - 1]) * 256 + draws[|draws| - 1] % 256
  {
  }
}
