/** The register bitset of the definite-initialization pass.

    A 64-bit word is an integer below 2^64 and `&`, `|` are given by their
    recursion on halves, so that what a bit operation does to a set of
    registers is a theorem here and not a built-in.
 */
module RegisterSets {

  const WORD_LIMIT: nat := 0x1_0000_0000_0000_0000

  /** An unsigned 64-bit word. */
  type Word = n: nat | n < WORD_LIMIT

  function Pow2(k: nat): (r: nat)
    ensures r > 0
  {
    if k == 0 then 1 else 2 * Pow2(k - 1)
  }

  /** Bitwise conjunction. */
  function And(a: nat, b: nat): (r: nat)
    ensures r <= a
  {
    if a == 0 || b == 0 then 0 else (a % 2) * (b % 2) + 2 * And(a / 2, b / 2)
  }

  /** Bitwise disjunction. */
  function Or(a: nat, b: nat): nat
    decreases a + b
  {
    if a == 0 then b else if b == 0 then a
    else (if a % 2 == 1 || b % 2 == 1 then 1 else 0) + 2 * Or(a / 2, b / 2)
  }

  /** Bit `k` of `n`, read off the binary expansion. */
  predicate Bit(n: nat, k: nat)
    decreases k
  {
    if k == 0 then n % 2 == 1 else Bit(n / 2, k - 1)
  }

  lemma {:induction false} ZeroHasNoBit(k: nat)
    ensures !Bit(0, k)
  {
    if k > 0 { ZeroHasNoBit(k - 1); }
  }

  lemma {:induction false} BitOfAnd(a: nat, b: nat, k: nat)
    ensures Bit(And(a, b), k) <==> Bit(a, k) && Bit(b, k)
    decreases k
  {
    if a == 0 || b == 0 {
      ZeroHasNoBit(k);
    } else if k > 0 {
      assert And(a, b) / 2 == And(a / 2, b / 2);
      BitOfAnd(a / 2, b / 2, k - 1);
    }
  }

  lemma {:induction false} BitOfOr(a: nat, b: nat, k: nat)
    ensures Bit(Or(a, b), k) <==> Bit(a, k) || Bit(b, k)
    decreases k
  {
    hide Or;
    OrHalves(a, b);
    if k > 0 { BitOfOr(a / 2, b / 2, k - 1); }
  }

  lemma OrHalves(a: nat, b: nat)
    ensures Or(a, b) / 2 == Or(a / 2, b / 2)
    ensures Or(a, b) % 2 == 1 <==> a % 2 == 1 || b % 2 == 1
  {}

  lemma {:induction false} OrBound(a: nat, b: nat, w: nat)
    requires a < Pow2(w) && b < Pow2(w)
    ensures Or(a, b) < Pow2(w)
    decreases w
  {
    if a != 0 && b != 0 {
      OrBound(a / 2, b / 2, w - 1);
    }
  }

  lemma {:induction false} BitOfPow2(j: nat, k: nat)
    ensures Bit(Pow2(j), k) <==> j == k
    decreases k
  {
    if j == 0 && k > 0 {
      ZeroHasNoBit(k - 1);
    } else if j > 0 && k > 0 {
      BitOfPow2(j - 1, k - 1);
    }
  }

  lemma {:induction false} BitOfOnes(n: nat, k: nat)
    ensures Bit(Pow2(n) - 1, k) <==> k < n
    decreases k
  {
    if n == 0 {
      ZeroHasNoBit(k);
    } else if k > 0 {
      assert (Pow2(n) - 1) / 2 == Pow2(n - 1) - 1;
      BitOfOnes(n - 1, k - 1);
    }
  }

  /** Two words with the same bits are the same word. */
  lemma {:induction false} BitsDetermineWord(a: nat, b: nat, w: nat)
    requires a < Pow2(w) && b < Pow2(w)
    requires forall k :: 0 <= k < w ==> (Bit(a, k) <==> Bit(b, k))
    ensures a == b
    decreases w
  {
    if w > 0 {
      assert Bit(a, 0) <==> Bit(b, 0);
      forall k | 0 <= k < w - 1
        ensures Bit(a / 2, k) <==> Bit(b / 2, k)
      {
        assert Bit(a, k + 1) <==> Bit(b, k + 1);
      }
      BitsDetermineWord(a / 2, b / 2, w - 1);
    }
  }

  lemma {:induction false} Pow2Doubles(k: nat)
    ensures Pow2(2 * k) == Pow2(k) * Pow2(k)
  {
    if k > 0 {
      Pow2Doubles(k - 1);
      assert Pow2(2 * k) == 4 * Pow2(2 * k - 2);
    }
  }

  lemma Pow2Of64()
    ensures Pow2(64) == WORD_LIMIT
  {
    assert Pow2(2) == 4;
    Pow2Doubles(2);
    Pow2Doubles(4);
    Pow2Doubles(8);
    Pow2Doubles(16);
    Pow2Doubles(32);
  }

  lemma {:induction false} Pow2Monotone(j: nat, k: nat)
    requires j <= k
    ensures Pow2(j) <= Pow2(k)
    decreases k - j
  {
    if j < k { Pow2Monotone(j, k - 1); }
  }

  lemma AndHalves(a: nat, b: nat)
    ensures And(a, b) == (a % 2) * (b % 2) + 2 * And(a / 2, b / 2)
  {}

  /** A mask of `k` low ones selects the low `k` bits. */
  lemma {:induction false} AndLow(high: nat, low: nat, k: nat)
    requires low < Pow2(k)
    ensures And(high * Pow2(k) + low, Pow2(k) - 1) == low
    decreases k
  {
    hide And, Pow2;
    if k > 0 {
      Doubled(high, k);
      Doubled(1, k);
      AndOddMask(high * Pow2(k - 1), low, Pow2(k - 1));
      AndLow(high, low / 2, k - 1);
    } else {
      PowZero();
      AndZero(high);
    }
  }

  lemma PowZero()
    ensures Pow2(0) == 1
  {}

  lemma Doubled(x: nat, k: nat)
    requires k > 0
    ensures x * Pow2(k) == 2 * (x * Pow2(k - 1))
  {}

  lemma AndOddMask(t: nat, low: nat, p: nat)
    requires p > 0
    ensures And(2 * t + low, 2 * p - 1) == low % 2 + 2 * And(t + low / 2, p - 1)
  {
    hide And;
    AndHalves(2 * t + low, 2 * p - 1);
    assert (2 * t + low) / 2 == t + low / 2 && (2 * p - 1) / 2 == p - 1;
    assert (2 * t + low) % 2 == low % 2 && (2 * p - 1) % 2 == 1;
  }

  lemma AndEvenMask(t: nat, low: nat, u: nat)
    ensures And(2 * t + low, 2 * u) == 2 * And(t + low / 2, u)
  {
    hide And;
    AndHalves(2 * t + low, 2 * u);
    assert (2 * t + low) / 2 == t + low / 2;
  }

  lemma AndZero(a: nat)
    ensures And(a, 0) == 0
  {}

  /** A mask above the low `k` bits sees only the bits above them. */
  lemma {:induction false} AndHigh(high: nat, low: nat, m: nat, k: nat)
    requires low < Pow2(k)
    ensures And(high * Pow2(k) + low, m * Pow2(k)) == And(high, m) * Pow2(k)
    decreases k
  {
    hide And, Pow2;
    if k > 0 {
      Doubled(1, k);
      Doubled(high, k);
      Doubled(m, k);
      Doubled(And(high, m), k);
      AndEvenMask(high * Pow2(k - 1), low, m * Pow2(k - 1));
      AndHigh(high, low / 2, m, k - 1);
    } else {
      PowZero();
    }
  }

  /** The test the source makes, `word & (1 << k) != 0`, reads bit `k`. */
  lemma {:induction false} MaskTestsBit(w: nat, k: nat)
    ensures And(w, Pow2(k)) != 0 <==> Bit(w, k)
  {
    BitOfAnd(w, Pow2(k), k);
    BitOfPow2(k, k);
    if And(w, Pow2(k)) != 0 {
      var j := SomeBit(And(w, Pow2(k)));
      BitOfAnd(w, Pow2(k), j);
      BitOfPow2(k, j);
    } else {
      ZeroHasNoBit(k);
    }
  }

  lemma {:induction false} SomeBit(n: nat) returns (k: nat)
    requires n > 0
    ensures Bit(n, k)
  {
    if n % 2 == 1 {
      k := 0;
    } else {
      k := SomeBit(n / 2);
      k := k + 1;
    }
  }

  // ---- words as sets of registers

  function WordsFor(registerCount: nat): nat {
    (registerCount + 63) / 64
  }

  /** The registers `0 .. n`. */
  ghost function Below(n: nat): (s: set<nat>)
    ensures forall r :: r in s <==> 0 <= r < n
    ensures |s| == n
  {
    if n == 0 then {} else Below(n - 1) + {n - 1}
  }

  /** Register `r` has its bit set in a vector of words. */
  predicate InWords(words: seq<Word>, r: int) {
    0 <= r < 64 * |words| && Bit(words[r / 64], r % 64)
  }

  /** The registers a vector of words stands for. */
  ghost function Registers(words: seq<Word>): set<nat> {
    set r | 0 <= r < 64 * |words| && InWords(words, r)
  }

  /** `s` is the set a vector of words stands for, in a form that keeps bits out of set reasoning. */
  ghost predicate Stands(words: seq<Word>, s: set<nat>) {
    forall r: nat {:trigger InWords(words, r)} :: InWords(words, r) <==> r in s
  }

  lemma StandsIsRegisters(words: seq<Word>, s: set<nat>)
    ensures Stands(words, s) <==> s == Registers(words)
  {
    if Stands(words, s) {
      forall r: nat
        ensures r in s <==> r in Registers(words)
      {
        assert InWords(words, r) <==> r in s;
      }
    }
  }

  /** A vector of a given length is determined by the set it stands for. */
  lemma RegistersDetermineWords(a: seq<Word>, b: seq<Word>)
    requires |a| == |b| && Registers(a) == Registers(b)
    ensures a == b
  {
    forall i | 0 <= i < |a|
      ensures a[i] == b[i]
    {
      forall k | 0 <= k < 64
        ensures Bit(a[i], k) <==> Bit(b[i], k)
      {
        var r := 64 * i + k;
        assert r / 64 == i && r % 64 == k;
        assert r in Registers(a) <==> r in Registers(b);
      }
      Pow2Of64();
      BitsDetermineWord(a[i], b[i], 64);
    }
  }

  lemma RegistersOfConjunction(a: seq<Word>, b: seq<Word>, c: seq<Word>)
    requires |a| == |b| == |c|
    requires forall i :: 0 <= i < |a| ==> c[i] == And(a[i], b[i])
    ensures Registers(c) == Registers(a) * Registers(b)
  {
    forall r | 0 <= r < 64 * |a|
      ensures r in Registers(c) <==> r in Registers(a) && r in Registers(b)
    {
      BitOfAnd(a[r / 64], b[r / 64], r % 64);
    }
  }

  lemma RegistersOfInsert(a: seq<Word>, j: nat, c: seq<Word>)
    requires j / 64 < |a| && |c| == |a|
    requires c[j / 64] == Or(a[j / 64], Pow2(j % 64))
    requires forall i :: 0 <= i < |a| && i != j / 64 ==> c[i] == a[i]
    ensures Registers(c) == Registers(a) + {j}
  {
    forall r | 0 <= r < 64 * |a|
      ensures r in Registers(c) <==> r in Registers(a) || r == j
    {
      if r / 64 == j / 64 {
        BitOfOr(a[j / 64], Pow2(j % 64), r % 64);
        BitOfPow2(j % 64, r % 64);
      }
    }
    assert forall r :: r in Registers(c) <==> r in Registers(a) + {j};
  }

  /** A register bitset; its words are updated in place. */
  class RegisterSet {
    var words: seq<Word>

    ghost function Members(): set<nat>
      reads this
    {
      Registers(words)
    }

    constructor Empty(registerCount: nat)
      ensures |words| == WordsFor(registerCount)
      ensures Members() == {}
    {
      words := seq(WordsFor(registerCount), _ => 0);
      new;
      forall r | 0 <= r < 64 * |words|
        ensures r !in Members()
      {
        ZeroHasNoBit(r % 64);
      }
    }

    constructor Full(registerCount: nat)
      ensures |words| == WordsFor(registerCount)
      ensures Members() == Below(registerCount)
    {
      Pow2Of64();
      hide Pow2, Bit, Below;
      var length := WordsFor(registerCount);
      var all: seq<Word> := seq(length, _ => WORD_LIMIT - 1);
      var remainder := registerCount % 64;
      if remainder != 0 && length != 0 {
        Pow2Monotone(remainder, 64);
        all := all[length - 1 := Pow2(remainder) - 1];
      }
      words := all;
      new;
      forall r | 0 <= r < 64 * length
        ensures r in Members() <==> r < registerCount
      {
        BitOfOnes(64, r % 64);
        BitOfOnes(remainder, r % 64);
      }
    }

    /** Takes over the words of an existing set. */
    constructor Of(existing: seq<Word>)
      ensures words == existing
    {
      words := existing;
    }

    function Contains(register: nat): (r: bool)
      reads this
      ensures r <==> register in Members()
    {
      MaskTestsBit(if register / 64 < |words| then words[register / 64] else 0, register % 64);
      register / 64 < |words| && And(words[register / 64], Pow2(register % 64)) != 0
    }

    method Insert(register: nat)
      modifies this
      ensures |words| == |old(words)|
      ensures Members() == if register < 64 * |words| then old(Members()) + {register} else old(Members())
    {
      if register / 64 < |words| {
        Pow2Of64();
        Pow2Monotone(register % 64 + 1, 64);
        OrBound(words[register / 64], Pow2(register % 64), 64);
        ghost var was := words;
        words := words[register / 64 := Or(words[register / 64], Pow2(register % 64))];
        RegistersOfInsert(was, register, words);
      }
    }

    method InsertPrefix(count: nat)
      modifies this
      ensures |words| == |old(words)|
      ensures Members() == old(Members()) + Below(if count <= 64 * |words| then count else 64 * |words|)
    {
      hide Registers, Below;
      assert old(Members()) + Below(0) == old(Members());
      for register := 0 to count
        invariant |words| == |old(words)|
        invariant Members() == old(Members()) + Below(if register <= 64 * |words| then register else 64 * |words|)
      {
        PrefixGrows(old(Members()), register, 64 * |words|);
        Insert(register);
      }
    }

    /** Conjoins word by word with the words of another set, over the shorter of the two vectors. */
    method Intersect(other: seq<Word>) returns (changed: bool)
      modifies this
      ensures |words| == |old(words)|
      ensures |words| == |other| ==> Members() == old(Members()) * Registers(other)
      ensures changed <==> words != old(words)
      ensures changed <==> Members() != old(Members())
      ensures Members() <= old(Members())
    {
      ghost var was := words;
      var n := if |words| <= |other| then |words| else |other|;
      changed := false;
      for i := 0 to n
        invariant |words| == |was|
        invariant forall j :: 0 <= j < i ==> words[j] == And(was[j], other[j])
        invariant forall j :: i <= j < |was| ==> words[j] == was[j]
        invariant changed <==> words != was
      {
        var next := And(words[i], other[i]);
        if next != words[i] {
          changed := true;
          words := words[i := next];
        }
      }
      ghost var mask: seq<Word> := seq(|was|, i requires 0 <= i < |was| => if i < n then other[i] else was[i]);
      forall i | n <= i < |was| ensures words[i] == And(was[i], mask[i]) { AndSelf(was[i]); }
      RegistersOfConjunction(was, mask, words);
      if |words| == |other| { assert mask == other; }
      if Members() == old(Members()) {
        RegistersDetermineWords(words, was);
      }
    }
  }

  lemma PrefixGrows(s: set<nat>, n: nat, cap: nat)
    ensures s + Below(if n + 1 <= cap then n + 1 else cap)
            == if n < cap then s + Below(if n <= cap then n else cap) + {n} else s + Below(if n <= cap then n else cap)
  {}

  lemma {:induction false} AndSelf(a: nat)
    ensures And(a, a) == a
  {
    if a > 0 { AndSelf(a / 2); }
  }
}
