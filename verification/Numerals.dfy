/** Numerals as they are written: the digits of a number in a radix, the last one the
    remainder, the others the quotient's. */
module Numerals {
  import opened FabricTypes

  const LOWER := "0123456789abcdef"
  const UPPER := "0123456789ABCDEF"

  /** The byte is the character of digit `d`, in either case. */
  predicate IsDigit(b: byte, d: nat)
    requires d < 16
  {
    b as int == LOWER[d] as int || b as int == UPPER[d] as int
  }

  /** The bytes are a numeral of `n`, with any leading zeros and letters of either case. */
  predicate Spells(s: seq<byte>, n: nat, radix: nat)
    requires 2 <= radix <= 16
    decreases |s|
  {
    && s != []
    && IsDigit(s[|s| - 1], n % radix)
    && (if |s| == 1 then n < radix else Spells(s[..|s| - 1], n / radix, radix))
  }

  function Character(upper: bool, d: nat): (b: byte)
    requires d < 16
    ensures IsDigit(b, d)
  {
    assert forall k :: 0 <= k < 16 ==> LOWER[k] < 128 as char && UPPER[k] < 128 as char;
    if upper then UPPER[d] as int else LOWER[d] as int
  }

  /** The shortest numeral of `n`, in upper-case letters or lower. */
  function Written(n: nat, radix: nat, upper: bool): seq<byte>
    requires 2 <= radix <= 16
    decreases n
  {
    if n < radix then [Character(upper, n)]
    else Written(n / radix, radix, upper) + [Character(upper, n % radix)]
  }

  function Zeros(k: nat): seq<byte> {
    if k == 0 then [] else ['0' as int] + Zeros(k - 1)
  }

  lemma {:induction false} ZerosSpellZero(k: nat, radix: nat)
    requires k >= 1 && 2 <= radix <= 16
    ensures Spells(Zeros(k), 0, radix)
  {
    if k > 1 {
      ZerosOn(k - 1);
      ZerosSpellZero(k - 1, radix);
      assert (Zeros(k - 1) + ['0' as int])[..k - 1] == Zeros(k - 1);
    }
  }

  lemma {:induction false} ZerosOn(k: nat)
    ensures |Zeros(k)| == k && Zeros(k + 1) == Zeros(k) + ['0' as int]
  {
    if k > 0 {
      ZerosOn(k - 1);
      assert ['0' as int] + (Zeros(k - 1) + ['0' as int]) == (['0' as int] + Zeros(k - 1)) + ['0' as int];
    }
  }

  lemma Multiples(radix: nat, k: int)
    ensures (k >= 1 ==> radix * k >= radix) && (k <= -1 ==> radix * k <= 0 - radix)
  {
    if k >= 1 {
      assert radix * k == radix + radix * (k - 1);
    } else if k <= -1 {
      assert radix * k == radix * (k + 1) - radix;
    }
  }

  lemma SmallQuotient(n: nat, radix: nat, q: nat, d: nat)
    requires n < radix && q == n / radix && d == n % radix
    ensures q == 0 && d == n
  {
    assert n == radix * q + d;
    Multiples(radix, q);
  }

  lemma SpellsOn(p: seq<byte>, b: byte, n: nat, radix: nat, q: nat, d: nat)
    requires 2 <= radix <= 16 && q == n / radix && d == n % radix && IsDigit(b, d)
    requires if p == [] then n < radix else Spells(p, q, radix)
    ensures Spells(p + [b], n, radix)
  {
    assert (p + [b])[..|p|] == p;
  }

  lemma Shrinks(n: nat, radix: nat, q: nat)
    requires 2 <= radix <= n && q == n / radix
    ensures q < n
  {
    assert n == radix * q + n % radix && radix * q == 2 * q + (radix - 2) * q;
  }

  lemma WrittenOn(n: nat, radix: nat, upper: bool, q: nat, d: nat)
    requires 2 <= radix <= 16 && n >= radix && q == n / radix && d == n % radix
    ensures Written(n, radix, upper) == Written(q, radix, upper) + [Character(upper, d)]
  {
  }

  lemma SmallSpells(k: nat, n: nat, radix: nat, c: byte)
    requires 2 <= radix <= 16 && n < radix && IsDigit(c, n)
    ensures Spells(Zeros(k) + [c], n, radix)
  {
    ZerosOn(k);
    if k > 0 {
      ZerosSpellZero(k, radix);
    }
    SmallQuotient(n, radix, n / radix, n % radix);
    SpellsOn(Zeros(k), c, n, radix, 0, n);
  }

  /** What is written is a numeral of the number, leading zeros or none. */
  lemma {:induction false} WrittenSpells(k: nat, n: nat, radix: nat, upper: bool)
    requires 2 <= radix <= 16
    ensures Spells(Zeros(k) + Written(n, radix, upper), n, radix)
    decreases n
  {
    if n < radix {
      SmallSpells(k, n, radix, Character(upper, n));
    } else {
      var q, d := n / radix, n % radix;
      var c := Character(upper, d);
      Shrinks(n, radix, q);
      WrittenOn(n, radix, upper, q, d);
      WrittenSpells(k, q, radix, upper);
      LongSpells(Zeros(k), Written(q, radix, upper), c, n, radix, q, d);
    }
  }

  lemma LongSpells(zeros: seq<byte>, s: seq<byte>, c: byte, n: nat, radix: nat, q: nat, d: nat)
    requires 2 <= radix <= 16 && q == n / radix && d == n % radix && IsDigit(c, d)
    requires Spells(zeros + s, q, radix)
    ensures Spells(zeros + (s + [c]), n, radix)
  {
    SpellsOn(zeros + s, c, n, radix, q, d);
    assert zeros + (s + [c]) == (zeros + s) + [c];
  }

  lemma SpellsParts(s: seq<byte>, n: nat, radix: nat, q: nat, d: nat)
    requires 2 <= radix <= 16 && Spells(s, n, radix) && q == n / radix && d == n % radix
    ensures s != [] && d < radix && IsDigit(s[|s| - 1], d)
    ensures if |s| == 1 then n < radix else Spells(s[..|s| - 1], q, radix)
  {
  }

  /** Only digits make up a numeral. */
  lemma {:induction false} OnlyDigits(s: seq<byte>, n: nat, radix: nat, i: nat)
    requires 2 <= radix <= 16 && Spells(s, n, radix) && i < |s|
    ensures exists d :: 0 <= d < radix && IsDigit(s[i], d)
    decreases |s|
  {
    if i == |s| - 1 {
      assert IsDigit(s[i], n % radix);
    } else {
      OnlyDigits(s[..|s| - 1], n / radix, radix, i);
      assert s[..|s| - 1][i] == s[i];
    }
  }
}
