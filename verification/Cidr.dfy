/** IPv4 CIDR matching with 32-bit masks (packages/common/src/guards/internal.guard.ts). */
module Cidr {
  import opened Wrappers
  import opened Text

  const WORD := 0x1_0000_0000

  function Pow2(k: nat): (r: nat)
    ensures r > 0
  {
    if k == 0 then 1 else 2 * Pow2(k - 1)
  }

  // The bitwise operators of the language: operands and results are 32-bit words

  function ToUint32(x: int): (r: nat)
    ensures r < WORD
  {
    x % WORD
  }

  function ToInt32(x: int): (r: int)
    ensures -0x8000_0000 <= r < 0x8000_0000
  {
    var u := ToUint32(x);
    if u < 0x8000_0000 then u else u - WORD
  }

  function OrBits(a: nat, b: nat): nat {
    if a == 0 then b else if b == 0 then a
    else (if a % 2 == 1 || b % 2 == 1 then 1 else 0) + 2 * OrBits(a / 2, b / 2)
  }

  function AndBits(a: nat, b: nat): nat {
    if a == 0 || b == 0 then 0
    else (if a % 2 == 1 && b % 2 == 1 then 1 else 0) + 2 * AndBits(a / 2, b / 2)
  }

  /** x << k; the count is taken modulo 32. */
  function Shl(x: int, k: nat): int { ToInt32(x * Pow2(k % 32)) }

  /** x | y. */
  function Or(x: int, y: int): int { ToInt32(OrBits(ToUint32(x), ToUint32(y))) }

  /** x & y. */
  function And(x: int, y: int): int { ToInt32(AndBits(ToUint32(x), ToUint32(y))) }

  /** x >>> 0. */
  function Unsigned(x: int): nat { ToUint32(x) }

  // Addresses

  predicate IsOctet(s: string) { IsNumeral(s) && Value(s) <= 255 }

  /** The number of a dotted quad; leading zeros are decimal. */
  function Address(ip: string): Option<nat> {
    var octets := Split(ip, '.');
    if |octets| == 4 && IsOctet(octets[0]) && IsOctet(octets[1]) && IsOctet(octets[2]) && IsOctet(octets[3])
    then Some(((Value(octets[0]) * 256 + Value(octets[1])) * 256 + Value(octets[2])) * 256 + Value(octets[3]))
    else None
  }

  function Folded(octets: seq<string>): nat
    requires forall i :: 0 <= i < |octets| ==> IsOctet(octets[i])
  {
    if octets == [] then 0
    else
      var last := octets[|octets| - 1];
      assert IsOctet(last);
      Folded(octets[..|octets| - 1]) * 256 + Value(last)
  }

  method Ipv4ToUint32(ip: string) returns (r: Option<nat>)
    ensures r == Address(ip)
    ensures r.Some? ==> r.value < WORD
  {
    var octets := Split(ip, '.');
    if |octets| != 4 {
      return None;
    }
    var acc := 0;
    var i := 0;
    while i < 4
      invariant 0 <= i <= 4
      invariant forall k :: 0 <= k < i ==> IsOctet(octets[k])
      invariant acc == Folded(octets[..i])
    {
      if !IsNumeral(octets[i]) {
        return None;
      }
      var n := Value(octets[i]);
      if n > 255 {
        return None;
      }
      FoldOneMore(octets, i);
      ByteAppends(acc, n);
      acc := Unsigned(Or(Shl(acc, 8), n));
      i := i + 1;
    }
    assert octets[..4] == octets;
    FoldedFour(octets);
    return Some(Unsigned(acc));
  }

  /** One more octet; three of them leave room for a fourth. */
  lemma FoldOneMore(octets: seq<string>, i: nat)
    requires i < 4 == |octets| && forall k :: 0 <= k <= i ==> IsOctet(octets[k])
    ensures Folded(octets[..i + 1]) == Folded(octets[..i]) * 256 + Value(octets[i])
    ensures Folded(octets[..i]) < 0x100_0000
  {
    assert octets[..i + 1][..i] == octets[..i];
    FoldedBelow(octets[..i]);
  }

  lemma {:induction false} FoldedBelow(octets: seq<string>)
    requires |octets| <= 3 && forall i :: 0 <= i < |octets| ==> IsOctet(octets[i])
    ensures |octets| == 0 ==> Folded(octets) == 0
    ensures |octets| == 1 ==> Folded(octets) < 0x100
    ensures |octets| == 2 ==> Folded(octets) < 0x1_0000
    ensures |octets| == 3 ==> Folded(octets) < 0x100_0000
  {
    if octets != [] {
      assert IsOctet(octets[|octets| - 1]);
      FoldedBelow(octets[..|octets| - 1]);
    }
  }

  lemma PowersOfBytes()
    ensures Pow2(0) == 1 && Pow2(8) == 256 && Pow2(16) == 0x1_0000 && Pow2(24) == 0x100_0000 && Pow2(32) == WORD
  {
    PowSum(8, 8);
    PowSum(8, 16);
    PowSum(16, 16);
    assert Pow2(4) == 16 && Pow2(8) == 2 * 2 * 2 * 2 * Pow2(4);
  }

  lemma {:induction false} PowSum(a: nat, b: nat)
    ensures Pow2(a + b) == Pow2(a) * Pow2(b)
  {
    if a > 0 {
      PowSum(a - 1, b);
    }
  }

  lemma {:induction false} OrOfApart(k: nat, a: nat, n: nat)
    requires n < Pow2(k)
    ensures OrBits(a * Pow2(k), n) == a * Pow2(k) + n
  {
    if k > 0 && a > 0 && n > 0 {
      var p := Pow2(k - 1);
      assert a * Pow2(k) == 2 * (a * p);
      OrOfApart(k - 1, a, n / 2);
      assert a * p > 0;
    }
  }

  lemma ShlByte(acc: nat)
    requires acc < 0x100_0000
    ensures ToUint32(Shl(acc, 8)) == acc * 256
  {
    PowersOfBytes();
    assert Shl(acc, 8) == ToInt32(acc * 256);
    SignedIsWord(acc * 256);
    SmallWord(acc * 256);
  }

  /** Shifting in a byte multiplies by 256 and adds, as long as the word has room. */
  lemma ByteAppends(acc: nat, n: nat)
    requires acc < 0x100_0000 && n < 256
    ensures Unsigned(Or(Shl(acc, 8), n)) == acc * 256 + n
  {
    ShlByte(acc);
    SmallWord(n);
    PowersOfBytes();
    OrOfApart(8, acc, n);
    var word := acc * 256 + n;
    assert Or(Shl(acc, 8), n) == ToInt32(word);
    SignedIsWord(word);
    SmallWord(word);
  }

  lemma FoldedFour(octets: seq<string>)
    requires |octets| == 4 && forall i :: 0 <= i < 4 ==> IsOctet(octets[i])
    ensures Folded(octets)
            == ((Value(octets[0]) * 256 + Value(octets[1])) * 256 + Value(octets[2])) * 256 + Value(octets[3])
  {
    var one, two, three := octets[..1], octets[..2], octets[..3];
    assert three[..2] == two && two[..1] == one && one[..0] == octets[..0];
    assert Folded(octets[..0]) == 0;
    assert Folded(one) == Value(octets[0]);
    assert Folded(two) == Folded(one) * 256 + Value(octets[1]);
    assert Folded(three) == Folded(two) * 256 + Value(octets[2]);
  }

  // Masks

  /** The comparison of the masked words. */
  predicate MaskedEqual(src: nat, base: nat, prefix: nat)
    requires prefix <= 32
  {
    var mask := if prefix == 0 then 0 else Unsigned(Shl(-1, 32 - prefix));
    And(src, mask) == And(base, mask)
  }

  lemma AndUnfolds(a: nat, b: nat)
    ensures AndBits(a, b) == (if a % 2 == 1 && b % 2 == 1 then 1 else 0) + 2 * AndBits(a / 2, b / 2)
  {
  }

  lemma {:induction false} AndOnes(x: nat, w: nat)
    ensures AndBits(x, Pow2(w) - 1) == x % Pow2(w)
  {
    if w > 0 {
      var p := Pow2(w - 1);
      var ones := 2 * p - 1;
      AndOnes(x / 2, w - 1);
      assert ones / 2 == p - 1 && ones % 2 == 1;
      AndUnfolds(x, ones);
      HalfRemainder(x, p);
    }
  }

  lemma HalfRemainder(x: nat, p: nat)
    requires p > 0
    ensures x % (2 * p) == x % 2 + 2 * (x / 2 % p)
  {
    var h := x / 2;
    assert h == p * (h / p) + h % p;
    assert x == (2 * p) * (h / p) + (x % 2 + 2 * (h % p)) by {
      assert 2 * (p * (h / p)) == (2 * p) * (h / p);
    }
    Remainder(x, 2 * p, h / p, x % 2 + 2 * (h % p));
  }

  lemma AtLeast(d: int, k: int)
    requires d > 0 && k >= 1
    ensures d * k >= d
  {
  }

  lemma Remainder(x: int, d: int, q: int, r: int)
    requires d > 0 && 0 <= r < d && x == d * q + r
    ensures x % d == r && x / d == q
  {
    var q', r' := x / d, x % d;
    assert x == d * q' + r';
    assert d * (q - q') == d * q - d * q' && d * (q' - q) == d * q' - d * q;
    if q > q' { AtLeast(d, q - q'); }
    if q < q' { AtLeast(d, q' - q); }
  }

  lemma SmallWord(x: nat)
    requires x < WORD
    ensures ToUint32(x) == x
  {
  }

  /** Ones above k zeros keep the upper part of a word. */
  lemma {:induction false} AndMask(x: nat, w: nat, k: nat)
    requires k <= w && x < Pow2(w)
    ensures Pow2(k) <= Pow2(w) && AndBits(x, Pow2(w) - Pow2(k)) == x - x % Pow2(k)
    decreases k
  {
    PowSum(k, w - k);
    if k == 0 {
      AndOnes(x, w);
      Remainder(x, Pow2(w), 0, x);
    } else {
      var p := Pow2(k - 1);
      AndMask(x / 2, w - 1, k - 1);
      var mask := Pow2(w) - Pow2(k);
      assert mask == 2 * (Pow2(w - 1) - p);
      HalfRemainder(x, p);
      if x > 0 && mask > 0 {
        assert AndBits(x, mask) == 2 * AndBits(x / 2, mask / 2);
      }
      if mask == 0 {
        assert Pow2(w - 1) == p;
        assert AndBits(x / 2, 0) == 0;
      }
    }
  }

  lemma PowBelowWord(k: nat)
    requires k <= 31
    ensures Pow2(k) < WORD
  {
    PowersOfBytes();
    PowSum(k, 31 - k);
    AtLeast(Pow2(k), Pow2(31 - k));
  }

  lemma MaskWord(prefix: nat)
    requires 1 <= prefix <= 32
    ensures Unsigned(Shl(-1, 32 - prefix)) == WORD - Pow2(32 - prefix)
  {
    var p: int := Pow2(32 - prefix);
    PowBelowWord(32 - prefix);
    Remainder(-p, WORD, -1, WORD - p);
    SignedIsWord(-p);
    assert Shl(-1, 32 - prefix) == ToInt32(-p);
  }

  /** Reading a word as signed and back loses nothing. */
  lemma SignedIsWord(x: int)
    ensures ToUint32(ToInt32(x)) == ToUint32(x)
  {
    var u := ToUint32(x);
    Remainder(u - WORD, WORD, -1, u);
    SmallWord(u);
  }

  lemma AndIsUpperPart(x: nat, prefix: nat)
    requires x < WORD && 1 <= prefix <= 32
    ensures 0 <= x - x % Pow2(32 - prefix) < WORD
    ensures And(x, Unsigned(Shl(-1, 32 - prefix))) == ToInt32(x - x % Pow2(32 - prefix))
  {
    var d := Pow2(32 - prefix);
    MaskWord(prefix);
    assert Pow2(32) == WORD by { PowersOfBytes(); }
    AndMask(x, 32, 32 - prefix);
    SmallWord(x);
    SmallWord(WORD - d);
    Fits(x, d);
  }

  lemma Fits(x: nat, d: nat)
    requires d > 0
    ensures 0 <= x - x % d <= x && x - x % d == d * (x / d)
  {
  }

  /** Two words that read the same as signed numbers are the same. */
  lemma SameSigned(x: nat, y: nat)
    requires x < WORD && y < WORD
    ensures ToInt32(x) == ToInt32(y) <==> x == y
  {
    SignedIsWord(x);
    SignedIsWord(y);
    SmallWord(x);
    SmallWord(y);
  }

  /** The masks agree exactly when the addresses agree above the prefix (section 3.1 of RFC 4632). */
  lemma MaskIsPrefix(src: nat, base: nat, prefix: nat)
    requires src < WORD && base < WORD && prefix <= 32
    ensures MaskedEqual(src, base, prefix) <==> src / Pow2(32 - prefix) == base / Pow2(32 - prefix)
  {
    if prefix == 0 {
      EmptyPrefix(src);
      EmptyPrefix(base);
    } else {
      ProperPrefix(src, base, prefix, Pow2(32 - prefix));
    }
  }

  lemma ProperPrefix(src: nat, base: nat, prefix: nat, d: nat)
    requires src < WORD && base < WORD && 0 < prefix <= 32 && d == Pow2(32 - prefix)
    ensures MaskedEqual(src, base, prefix) <==> src / d == base / d
  {
    MaskedIsUpper(src, base, prefix, d);
    EqualUpperParts(src, base, d);
  }

  lemma MaskedIsUpper(src: nat, base: nat, prefix: nat, d: nat)
    requires src < WORD && base < WORD && 0 < prefix <= 32 && d == Pow2(32 - prefix)
    ensures 0 <= src - src % d < WORD && 0 <= base - base % d < WORD
    ensures MaskedEqual(src, base, prefix) <==> ToInt32(src - src % d) == ToInt32(base - base % d)
  {
    AndIsUpperPart(src, prefix);
    AndIsUpperPart(base, prefix);
  }

  lemma EqualUpperParts(x: nat, y: nat, d: nat)
    requires d > 0 && 0 <= x - x % d < WORD && 0 <= y - y % d < WORD
    ensures ToInt32(x - x % d) == ToInt32(y - y % d) <==> x / d == y / d
  {
    SameSigned(x - x % d, y - y % d);
    SameUpperPart(x, y, d);
  }

  lemma EmptyPrefix(x: nat)
    requires x < WORD
    ensures And(x, 0) == 0 && x / Pow2(32) == 0
  {
    PowersOfBytes();
    Remainder(x, WORD, 0, x);
    assert AndBits(ToUint32(x), ToUint32(0)) == 0;
  }

  lemma SameUpperPart(x: nat, y: nat, d: nat)
    requires d > 0
    ensures x - x % d == y - y % d <==> x / d == y / d
  {
    Fits(x, d);
    Fits(y, d);
    if x / d != y / d { Multiples(d, x / d, y / d); }
  }

  lemma Multiples(d: nat, a: int, b: int)
    requires d > 0 && a != b
    ensures d * a != d * b
  {
    assert d * (a - b) == d * a - d * b;
    if a > b { AtLeast(d, a - b); } else { AtLeast(d, b - a); assert d * (b - a) == d * b - d * a; }
  }

  /** A longer prefix on the same base matches a subset. */
  lemma LongerPrefixIsSubset(src: nat, base: nat, p: nat, q: nat)
    requires src < WORD && base < WORD && p <= q <= 32
    requires MaskedEqual(src, base, q)
    ensures MaskedEqual(src, base, p)
  {
    MaskIsPrefix(src, base, p);
    MaskIsPrefix(src, base, q);
    PowSum(32 - q, q - p);
    DivTwice(src, Pow2(32 - q), Pow2(q - p));
    DivTwice(base, Pow2(32 - q), Pow2(q - p));
  }

  lemma DivTwice(x: nat, a: nat, b: nat)
    requires a > 0 && b > 0
    ensures a * b > 0 && x / (a * b) == x / a / b
  {
    var q := x / a;
    assert x == a * q + x % a && q == b * (q / b) + q % b;
    var r := a * (q % b) + x % a;
    assert a * (q % b) <= a * (b - 1);
    assert x == (a * b) * (q / b) + r by {
      assert a * (b * (q / b)) == (a * b) * (q / b);
      assert a * q == a * (b * (q / b)) + a * (q % b);
    }
    assert a * (b - 1) == a * b - a;
    Remainder(x, a * b, q / b, r);
  }

  // Printing and the whole match

  function Bytes(n: nat): seq<nat> { [n / 0x100_0000, n / 0x1_0000 % 256, n / 256 % 256, n % 256] }

  function Octets(n: nat): seq<string> {
    var b := Bytes(n);
    [Decimal(b[0]), Decimal(b[1]), Decimal(b[2]), Decimal(b[3])]
  }

  /** An address as four decimal numbers. */
  function Print(n: nat): string { Join(Octets(n), '.') }

  lemma OctetText(n: nat, c: char)
    requires n <= 255 && !IsDigit(c)
    ensures IsOctet(Decimal(n)) && Value(Decimal(n)) == n && c !in Decimal(n)
  {
    DecimalValue(n);
    var s := Decimal(n);
    forall i | 0 <= i < |s| ensures s[i] != c {
      assert IsDigit(s[i]);
    }
  }

  lemma OctetsText(n: nat, c: char)
    requires n < WORD && !IsDigit(c)
    ensures forall i :: 0 <= i < 4 ==>
              IsOctet(Octets(n)[i]) && Value(Octets(n)[i]) == Bytes(n)[i] && c !in Octets(n)[i]
  {
    var b := Bytes(n);
    forall i | 0 <= i < 4
      ensures IsOctet(Octets(n)[i]) && Value(Octets(n)[i]) == b[i] && c !in Octets(n)[i]
    {
      assert Octets(n)[i] == Decimal(b[i]) && b[i] <= 255;
      OctetText(b[i], c);
    }
  }

  lemma BytesMakeWord(n: nat)
    ensures ((n / 0x100_0000 * 256 + n / 0x1_0000 % 256) * 256 + n / 256 % 256) * 256 + n % 256 == n
  {
    var h := n / 256;
    var hh := h / 256;
    assert hh == n / 0x1_0000 && hh / 256 == n / 0x100_0000;
  }

  /** Parsing inverts printing. */
  lemma ParsePrint(n: nat)
    requires n < WORD
    ensures Address(Print(n)) == Some(n)
  {
    OctetsText(n, '.');
    SplitJoin(Octets(n), '.');
    BytesMakeWord(n);
  }

  /** So two addresses are never printed alike. */
  lemma PrintIsInjective(m: nat, n: nat)
    requires m < WORD && n < WORD
    ensures Print(m) == Print(n) <==> m == n
  {
    ParsePrint(m);
    ParsePrint(n);
  }

  predicate Lower(c: char, l: char) { c == l || (c as int == l as int - 32 && 'a' <= l <= 'z') }

  /** Drops the prefix of an IPv4-mapped IPv6 address, in either case. */
  function Normalized(ip: string): string {
    if |ip| >= 7 && ip[..2] == "::" && Lower(ip[2], 'f') && Lower(ip[3], 'f') && Lower(ip[4], 'f') && Lower(ip[5], 'f')
       && ip[6] == ':'
    then ip[7..] else ip
  }

  /** What follows the slash; `number` reads it as the language reads a number, None when it is not an integer. */
  function RangeAndPrefix(cidr: string): (string, string) {
    if '/' in cidr && |Split(cidr, '/')| >= 2 then (Split(cidr, '/')[0], Split(cidr, '/')[1]) else (cidr, "32")
  }

  function CidrContains(number: string -> Option<int>, cidr: string, ip: string): bool {
    var normalizedIp := Normalized(ip);
    if cidr == "::1" && (ip == "::1" || normalizedIp == "127.0.0.1") then true
    else if cidr == "127.0.0.1" && normalizedIp == "127.0.0.1" then true
    else if '.' !in cidr then cidr == ip || cidr == normalizedIp
    else
      var (rangeIp, prefixText) := RangeAndPrefix(cidr);
      match number(prefixText)
      case None => false
      case Some(prefix) =>
        if prefix < 0 || prefix > 32 || '.' !in normalizedIp then false
        else match (Address(normalizedIp), Address(rangeIp))
          case (Some(src), Some(base)) => MaskedEqual(src, base, prefix)
          case _ => false
  }

  lemma PrintedText(n: nat)
    requires n < WORD
    ensures Print(n) != [] && IsDigit(Print(n)[0]) && '.' in Print(n) && '/' !in Print(n)
  {
    var o := Octets(n);
    OctetsText(n, '/');
    var last, pair, triple := [o[3]], [o[2], o[3]], [o[1], o[2], o[3]];
    assert o[1..] == triple && triple[1..] == pair && pair[1..] == last;
    assert Join(pair, '.') == o[2] + "." + o[3];
    assert Join(triple, '.') == o[1] + "." + Join(pair, '.');
    assert Print(n) == o[0] + "." + Join(triple, '.');
    assert Print(n)[|o[0]|] == '.' && Print(n)[0] == o[0][0];
  }

  /** The prefix of an IPv4-mapped address, with small or capital letters. */
  ghost predicate IsMapping(p: string) {
    && |p| == 7 && p[0] == ':' && p[1] == ':' && p[6] == ':'
    && forall i :: 2 <= i < 6 ==> p[i] == 'f' || p[i] == 'F'
  }

  /** One such prefix is dropped, everything else stays. */
  lemma NormalizedExactly(ip: string)
    ensures |ip| >= 7 && IsMapping(ip[..7]) ==> Normalized(ip) == ip[7..]
    ensures !(|ip| >= 7 && IsMapping(ip[..7])) ==> Normalized(ip) == ip
  {
    if |ip| >= 7 {
      var p := ip[..7];
      assert ip[..2] == [p[0], p[1]];
      assert IsMapping(p) <==>
               p[0] == ':' && p[1] == ':' && p[6] == ':' && (p[2] == 'f' || p[2] == 'F') && (p[3] == 'f' || p[3] == 'F')
               && (p[4] == 'f' || p[4] == 'F') && (p[5] == 'f' || p[5] == 'F');
    }
  }

  lemma NormalizedMapped(mapping: string, ip: string)
    requires mapping == "" || IsMapping(mapping)
    requires ip != [] && ip[0] != ':'
    ensures Normalized(mapping + ip) == ip
  {
    NormalizedExactly(mapping + ip);
    if mapping == "" {
      assert mapping + ip == ip;
      assert |ip| >= 7 ==> ip[..7][0] == ip[0];
    } else {
      assert (mapping + ip)[..7] == mapping && (mapping + ip)[7..] == ip;
    }
  }

  /** A block with a prefix contains an address, plain or IPv4-mapped, exactly when they agree above the prefix. */
  lemma ContainsIsPrefixMatch(number: string -> Option<int>, base: nat, prefixText: string, prefix: int,
                              src: nat, mapping: string)
    requires base < WORD && src < WORD && '/' !in prefixText && number(prefixText) == Some(prefix)
    requires mapping == "" || IsMapping(mapping)
    ensures CidrContains(number, Print(base) + "/" + prefixText, mapping + Print(src))
            <==> 0 <= prefix <= 32 && src / Pow2(32 - prefix) == base / Pow2(32 - prefix)
  {
    PrintedText(base);
    PrintedText(src);
    NormalizedMapped(mapping, Print(src));
    ParsePrint(base);
    ParsePrint(src);
    var cidr := Print(base) + "/" + prefixText;
    var ip := mapping + Print(src);
    assert Normalized(ip) == Print(src);
    SlashSplits(Print(base), prefixText);
    assert cidr[0] == Print(base)[0] && cidr[|Print(base)|] == '/';
    assert cidr != "::1" && cidr != "127.0.0.1" by {
      assert '/' in cidr && '/' !in "::1" && '/' !in "127.0.0.1";
    }
    var k :| 0 <= k < |Print(base)| && Print(base)[k] == '.';
    assert cidr[k] == '.';
    if 0 <= prefix <= 32 { MaskIsPrefix(src, base, prefix); }
  }

  lemma SlashSplits(range: string, prefixText: string)
    requires '/' !in range && '/' !in prefixText
    ensures RangeAndPrefix(range + "/" + prefixText) == (range, prefixText)
  {
    var cidr := range + "/" + prefixText;
    assert cidr[|range|] == '/';
    SplitFirst(range, prefixText, '/');
    SplitPart(prefixText, '/');
  }

  /** A bare address stands for itself alone. */
  lemma BareIsExact(number: string -> Option<int>, base: nat, src: nat, mapping: string)
    requires base < WORD && src < WORD && number("32") == Some(32)
    requires mapping == "" || IsMapping(mapping)
    ensures CidrContains(number, Print(base), mapping + Print(src)) <==> base == src
  {
    PrintedText(base);
    PrintedText(src);
    NormalizedMapped(mapping, Print(src));
    ParsePrint(base);
    ParsePrint(src);
    PrintIsInjective(base, src);
    var ip := mapping + Print(src);
    assert Print(base)[0] != "::1"[0];
    MaskIsPrefix(src, base, 32);
  }

  /** The IPv6 loopback stands for itself and for the IPv4 one. */
  lemma LoopbackAliases(number: string -> Option<int>, ip: string)
    ensures CidrContains(number, "::1", ip) <==> ip == "::1" || Normalized(ip) in {"::1", "127.0.0.1"}
    ensures Normalized(ip) == "127.0.0.1" ==> CidrContains(number, "127.0.0.1", ip)
  {
    assert forall c | c in "::1" :: c == ':' || c == '1';
  }

  /** Any other text without a dot matches the very same text only. */
  lemma LiteralIsExact(number: string -> Option<int>, cidr: string, ip: string)
    requires '.' !in cidr && cidr != "::1"
    ensures CidrContains(number, cidr, ip) <==> cidr == ip || cidr == Normalized(ip)
  {
    assert "127.0.0.1"[3] == '.';
  }

  /** A range or an address that is no dotted quad, or a prefix that is no number from 0 to 32, matches nothing. */
  lemma MalformedMatchesNothing(number: string -> Option<int>, range: string, prefixText: string, ip: string)
    requires '.' in range && '/' !in range && '/' !in prefixText
    requires || Address(range).None? || Address(Normalized(ip)).None?
             || number(prefixText).None? || !(0 <= number(prefixText).value <= 32)
    ensures !CidrContains(number, range + "/" + prefixText, ip)
  {
    var cidr := range + "/" + prefixText;
    SlashSplits(range, prefixText);
    assert cidr[|range|] == '/';
    assert '/' !in "::1" && '/' !in "127.0.0.1";
    var k :| 0 <= k < |range| && range[k] == '.';
    assert cidr[k] == '.';
  }

  ghost predicate IsQuad(ip: string, a: string, b: string, c: string, d: string) {
    IsOctet(a) && IsOctet(b) && IsOctet(c) && IsOctet(d) && ip == a + "." + b + "." + c + "." + d
  }

  ghost function QuadValue(a: string, b: string, c: string, d: string): nat
    requires IsOctet(a) && IsOctet(b) && IsOctet(c) && IsOctet(d)
  {
    Value(a) * 0x100_0000 + Value(b) * 0x1_0000 + Value(c) * 0x100 + Value(d)
  }

  /** Four numerals of at most 255, joined by dots, have the address that they spell; nothing else has one. */
  lemma AddressExactly(ip: string)
    ensures Address(ip).Some? <==> exists a, b, c, d :: IsQuad(ip, a, b, c, d)
    ensures forall a, b, c, d | IsQuad(ip, a, b, c, d) :: Address(ip) == Some(QuadValue(a, b, c, d))
  {
    var octets := Split(ip, '.');
    if Address(ip).Some? {
      JoinSplit(ip, '.');
      JoinFour(octets);
      assert IsQuad(ip, octets[0], octets[1], octets[2], octets[3]);
    }
    forall a, b, c, d | IsQuad(ip, a, b, c, d) ensures Address(ip) == Some(QuadValue(a, b, c, d)) {
      QuadHasAddress(ip, a, b, c, d);
    }
  }

  lemma QuadHasAddress(ip: string, a: string, b: string, c: string, d: string)
    requires IsQuad(ip, a, b, c, d)
    ensures Address(ip) == Some(QuadValue(a, b, c, d))
  {
    JoinFour([a, b, c, d]);
    SplitJoin([a, b, c, d], '.');
  }

  lemma JoinFour(parts: seq<string>)
    requires |parts| == 4
    ensures Join(parts, '.') == parts[0] + "." + parts[1] + "." + parts[2] + "." + parts[3]
  {
    var triple := parts[1..];
    var pair := triple[1..];
    assert Join(pair, '.') == parts[2] + "." + parts[3];
    assert Join(triple, '.') == parts[1] + "." + Join(pair, '.');
    assert Join(parts, '.') == parts[0] + "." + Join(triple, '.');
  }
}
