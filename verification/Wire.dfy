/** Canonical unsigned LEB128 and byte-level encodings (section 7.6 of DWARF Version 5, restricted to
    minimal forms of at most 32 bits).
 */
module Wire {
  import opened Base
  import RegisterSets

  /** `e` is what the bytes hold from `at` up to `next`. */
  predicate Occurs(bytes: seq<byte>, at: nat, e: seq<byte>, next: nat) {
    at <= next <= |bytes| && bytes[at..next] == e
  }

  /** Two encodings in a row. */
  lemma OccursConcat(bytes: seq<byte>, at: nat, x: seq<byte>, y: seq<byte>, next: nat)
    ensures Occurs(bytes, at, x + y, next) <==>
            Occurs(bytes, at, x, at + |x|) && Occurs(bytes, at + |x|, y, next)
  {
    var middle := at + |x|;
    if Occurs(bytes, at, x + y, next) {
      assert |x + y| == next - at;
      assert bytes[at..middle] == bytes[at..next][..|x|] == x;
      assert bytes[middle..next] == bytes[at..next][|x|..] == y;
    }
    if Occurs(bytes, at, x, middle) && Occurs(bytes, middle, y, next) {
      assert bytes[at..next] == bytes[at..middle] + bytes[middle..next];
    }
  }

  lemma OccursBounds(bytes: seq<byte>, at: nat, e: seq<byte>, next: nat)
    requires Occurs(bytes, at, e, next)
    ensures at + |e| == next <= |bytes|
  {}

  // ---- LEB128

  /** The minimal encoding: seven bits a byte, least significant first, high bit on all but the last. */
  function Leb(n: nat): (e: seq<byte>)
    ensures |e| >= 1
  {
    if n < 128 then [n] else [n % 128 + 128] + Leb(n / 128)
  }

  /** The number that base-128 groups denote, least significant first. */
  function GroupsValue(e: seq<byte>): nat {
    if e == [] then 0 else e[0] % 128 + 128 * GroupsValue(e[1..])
  }

  /** The encoding denotes its number in base 128, marks every byte but the last, and has no empty last
      group unless it is the only one. */
  lemma {:induction false} LebMeans(n: nat)
    ensures var e := Leb(n);
      && GroupsValue(e) == n
      && (forall k :: 0 <= k < |e| ==> (e[k] >= 128 <==> k < |e| - 1))
      && (|e| > 1 ==> e[|e| - 1] != 0)
  {
    if n >= 128 {
      LebMeans(n / 128);
      var e, rest := Leb(n), Leb(n / 128);
      assert e[1..] == rest;
      assert forall k :: 1 <= k < |e| ==> e[k] == rest[k - 1];
    }
  }

  /** What `len() as u32` followed by `write_u32` emits: the low 32 bits of a length. */
  function LebLength(n: nat): seq<byte> {
    Leb(n % U32_LIMIT)
  }

  method WriteU32(value: U32, output: seq<byte>) returns (out: seq<byte>)
    ensures out == output + Leb(value)
  {
    out := output;
    var remaining: nat := value;
    while remaining >= 128
      invariant out + Leb(remaining) == output + Leb(value)
    {
      ghost var was := out;
      out := out + [remaining % 128 + 128];
      assert out + Leb(remaining / 128) == was + Leb(remaining);
      remaining := remaining / 128;
    }
    out := out + [remaining];
  }

  datatype LebError = UnexpectedEof | IntegerOverflow | NonCanonicalInteger

  /** A value and the offset after it, or an error and the offset where reading stopped. */
  datatype LebResult = LebOk(value: U32, next: nat) | LebErr(error: LebError, stopped: nat)

  /** One more than the largest value that groups `i` and up can hold. */
  function Room(i: nat): nat
    requires i <= 4
  {
    match i
    case 0 => 0x1_0000_0000
    case 1 => 0x200_0000
    case 2 => 0x4_0000
    case 3 => 0x800
    case _ => 0x10
  }

  /** The value of the groups from `i` on. A fifth group may hold only four bits; a zero last group
      after the first is an overlong form. */
  function LebFrom(bytes: seq<byte>, start: nat, i: nat): (r: LebResult)
    requires i <= 4
    ensures r.LebOk? ==> r.value < Room(i)
    decreases 4 - i
  {
    if start + i >= |bytes| then LebErr(UnexpectedEof, start + i)
    else
      var b := bytes[start + i];
      if i == 4 && (b >= 128 || b > 15) then LebErr(IntegerOverflow, start + 5)
      else if b < 128 then
        if b == 0 && i > 0 then LebErr(NonCanonicalInteger, start + i + 1) else LebOk(b, start + i + 1)
      else
        match LebFrom(bytes, start, i + 1)
        case LebOk(rest, next) => LebOk(b - 128 + 128 * rest, next)
        case LebErr(error, stopped) => LebErr(error, stopped)
  }

  function ReadLeb(bytes: seq<byte>, start: nat): LebResult {
    LebFrom(bytes, start, 0)
  }

  /** The groups before `i`, already accumulated, joined with the result of reading on. */
  predicate Joins(whole: LebResult, low: nat, i: nat, rest: LebResult)
    requires i <= 4
  {
    match rest
    case LebOk(high, next) => whole.LebOk? && whole.value == low + Shift(high, i) && whole.next == next
    case LebErr(_, _) => whole == rest
  }

  /** The seven payload bits of a byte. */
  function LowBits(b: byte): (r: byte)
    ensures r < 128
  {
    b % 128
  }

  /** `x << 7 * i`. */
  function Shift(x: nat, i: nat): nat
    requires i <= 4
    decreases i
  {
    if i == 0 then x else Shift(128 * x, i - 1)
  }

  lemma {:induction false} ShiftAdds(x: nat, y: nat, i: nat)
    requires i <= 4
    ensures Shift(x + y, i) == Shift(x, i) + Shift(y, i)
    decreases i
  {
    if i > 0 { ShiftAdds(128 * x, 128 * y, i - 1); }
  }

  /** Bits below a power of two and a multiple of it do not meet, so `|` adds them. */
  lemma {:induction false} OrAdds(a: nat, b: nat, k: nat)
    requires a < RegisterSets.Pow2(k)
    ensures RegisterSets.Or(a, b * RegisterSets.Pow2(k)) == a + b * RegisterSets.Pow2(k)
    decreases k
  {
    if k > 0 && a > 0 && b > 0 {
      var half := b * RegisterSets.Pow2(k - 1);
      assert b * RegisterSets.Pow2(k) == 2 * half;
      OrAdds(a / 2, b, k - 1);
    }
  }

  lemma {:induction false} ShiftIsPower(x: nat, i: nat)
    requires i <= 4
    ensures Shift(x, i) == x * RegisterSets.Pow2(7 * i)
    decreases i
  {
    if i > 0 {
      ShiftIsPower(128 * x, i - 1);
      PowerOfSeven(i - 1);
    }
  }

  lemma PowerOfSeven(i: nat)
    ensures RegisterSets.Pow2(7 * (i + 1)) == 128 * RegisterSets.Pow2(7 * i)
  {
    var k := 7 * i;
    assert RegisterSets.Pow2(k + 7) == 2 * RegisterSets.Pow2(k + 6);
    assert RegisterSets.Pow2(k + 6) == 2 * RegisterSets.Pow2(k + 5);
    assert RegisterSets.Pow2(k + 5) == 2 * RegisterSets.Pow2(k + 4);
    assert RegisterSets.Pow2(k + 4) == 2 * RegisterSets.Pow2(k + 3);
    assert RegisterSets.Pow2(k + 3) == 2 * RegisterSets.Pow2(k + 2);
    assert RegisterSets.Pow2(k + 2) == 2 * RegisterSets.Pow2(k + 1);
    assert RegisterSets.Pow2(k + 1) == 2 * RegisterSets.Pow2(k);
  }

  /** `low | x << 7 * i`, for the groups below `i` in `low`. */
  function Placed(low: nat, x: nat, i: nat): nat
    requires i <= 4
  {
    RegisterSets.Or(low, Shift(x, i))
  }

  /** Placing a group adds it and stays below the next one. */
  lemma PlacedAdds(low: nat, x: nat, i: nat)
    requires i <= 4 && low < Shift(1, i)
    ensures Placed(low, x, i) == low + Shift(x, i)
    ensures i < 4 && x < 128 ==> Placed(low, x, i) < Shift(1, i + 1)
  {
    hide Shift, RegisterSets.Pow2, RegisterSets.Or;
    ShiftIsPower(1, i);
    ShiftIsPower(x, i);
    OrAdds(low, x, 7 * i);
    if i < 4 && x < 128 {
      ShiftIsPower(1, i + 1);
      PowerOfSeven(i);
      GroupFits(low, x, RegisterSets.Pow2(7 * i));
    }
  }

  lemma GroupFits(low: nat, x: nat, p: nat)
    requires low < p && x < 128
    ensures low + x * p < 128 * p
  {
    assert x * p <= 127 * p;
  }

  lemma JoinsNext(whole: LebResult, low: nat, bytes: seq<byte>, start: nat, i: nat)
    requires i < 4 && start + i < |bytes| && bytes[start + i] >= 128
    requires Joins(whole, low, i, LebFrom(bytes, start, i))
    ensures Joins(whole, low + Shift(LowBits(bytes[start + i]), i), i + 1, LebFrom(bytes, start, i + 1))
  {
    var b, rest := bytes[start + i], LebFrom(bytes, start, i + 1);
    if rest.LebOk? {
      ShiftAdds(b - 128, 128 * rest.value, i);
      assert Shift(rest.value, i + 1) == Shift(128 * rest.value, i);
    }
    assert LowBits(b) == b - 128;
  }

  /** Mid-integer: the groups below `i` are accumulated in `low` and the rest is still to be read. */
  ghost predicate Reading(whole: LebResult, low: int, bytes: seq<byte>, start: nat, i: int) {
    0 <= i <= 4 && 0 <= low < Shift(1, i) && Joins(whole, low, i, LebFrom(bytes, start, i))
  }

  lemma ReadingStarts(bytes: seq<byte>, start: nat)
    ensures Reading(ReadLeb(bytes, start), 0, bytes, start, 0)
  {}

  /** How reading ends at group `i` with byte `b`, or goes on behind it. */
  lemma ReadGroup(whole: LebResult, low: nat, bytes: seq<byte>, start: nat, i: nat, b: byte)
    requires Reading(whole, low, bytes, start, i) && start + i < |bytes| && b == bytes[start + i]
    ensures i == 4 && b > 15 ==> whole == LebErr(IntegerOverflow, start + 5)
    ensures i == 4 && b == 0 ==> whole == LebErr(NonCanonicalInteger, start + 5)
    ensures i == 4 && 0 < b <= 15 ==> whole.LebOk? && whole.value == Placed(low, b, i) && whole.next == start + 5
    ensures i < 4 && b == 0 && i > 0 ==> whole == LebErr(NonCanonicalInteger, start + i + 1)
    ensures i < 4 && b < 128 && (b > 0 || i == 0) ==>
              whole.LebOk? && whole.value == Placed(low, LowBits(b), i) && whole.next == start + i + 1
    ensures i < 4 && b >= 128 ==> Reading(whole, Placed(low, LowBits(b), i), bytes, start, i + 1)
  {
    hide Placed;
    PlacedAdds(low, if i == 4 then b else LowBits(b), i);
    if i < 4 && b >= 128 { JoinsNext(whole, low, bytes, start, i); }
  }

  lemma ReadCutShort(whole: LebResult, low: nat, bytes: seq<byte>, start: nat, i: nat)
    requires Reading(whole, low, bytes, start, i) && start + i >= |bytes|
    ensures whole == LebErr(UnexpectedEof, start + i)
  {}

  /** The reader as the source runs it. */
  method ReadLeb128(bytes: seq<byte>, start: nat) returns (r: LebResult)
    ensures r == ReadLeb(bytes, start)
  {
    hide *;
    ghost var whole := ReadLeb(bytes, start);
    ReadingStarts(bytes, start);
    var offset: nat, result: nat, group: nat := start, 0, 0;
    while true
      invariant group <= 4 && offset == start + group
      invariant Reading(whole, result, bytes, start, group)
      decreases 4 - group
    {
      if offset >= |bytes| {
        ReadCutShort(whole, result, bytes, start, group);
        return LebErr(UnexpectedEof, offset);
      }
      var b := bytes[offset];
      offset := offset + 1;
      ReadGroup(whole, result, bytes, start, group, b);
      if group == 4 {
        if b >= 128 || b > 15 { return LebErr(IntegerOverflow, offset); }
        if b == 0 { return LebErr(NonCanonicalInteger, offset); }
        return LebOk(Placed(result, b, 4), offset);
      }
      result := Placed(result, LowBits(b), group);
      if b < 128 {
        if b == 0 && offset - start > 1 { return LebErr(NonCanonicalInteger, offset); }
        return LebOk(result, offset);
      }
      group := group + 1;
    }
  }

  lemma LebOfByte(b: byte)
    requires b < 128
    ensures Leb(b) == [b]
  {}

  lemma LebGrows(b: byte, rest: nat)
    requires b >= 128 && rest > 0
    ensures Leb(b - 128 + 128 * rest) == [b] + Leb(rest)
  {}

  lemma {:induction false} LebFromSound(bytes: seq<byte>, start: nat, i: nat)
    requires i <= 4 && LebFrom(bytes, start, i).LebOk?
    ensures var r := LebFrom(bytes, start, i);
      (i > 0 ==> r.value > 0) && Occurs(bytes, start + i, Leb(r.value), r.next)
    decreases 4 - i
  {
    hide Leb;
    var b := bytes[start + i];
    assert bytes[start + i..start + i + 1] == [b];
    if b < 128 {
      LebOfByte(b);
    } else {
      LebFromSound(bytes, start, i + 1);
      var rest := LebFrom(bytes, start, i + 1);
      LebGrows(b, rest.value);
      OccursConcat(bytes, start + i, [b], Leb(rest.value), rest.next);
    }
  }

  lemma {:induction false} LebFromComplete(bytes: seq<byte>, start: nat, i: nat, n: nat, next: nat)
    requires i <= 4 && n < Room(i) && (i > 0 ==> n > 0)
    requires Occurs(bytes, start + i, Leb(n), next)
    ensures LebFrom(bytes, start, i) == LebOk(n, next)
    decreases 4 - i
  {
    assert bytes[start + i] == bytes[start + i..next][0] == Leb(n)[0];
    if n >= 128 {
      OccursConcat(bytes, start + i, [n % 128 + 128], Leb(n / 128), next);
      LebFromComplete(bytes, start, i + 1, n / 128, next);
    }
  }

  /** Reading and writing are inverse: an integer is read exactly where its minimal encoding lies. */
  lemma LebExact(bytes: seq<byte>, start: nat, n: nat, next: nat)
    ensures n < U32_LIMIT ==> (ReadLeb(bytes, start) == LebOk(n, next) <==> Occurs(bytes, start, Leb(n), next))
    ensures ReadLeb(bytes, start).LebOk? ==>
              Occurs(bytes, start, Leb(ReadLeb(bytes, start).value), ReadLeb(bytes, start).next)
  {
    if ReadLeb(bytes, start).LebOk? {
      LebFromSound(bytes, start, 0);
    }
    if n < U32_LIMIT && Occurs(bytes, start, Leb(n), next) {
      LebFromComplete(bytes, start, 0, n, next);
    }
  }

  // ---- little-endian integers

  /** The `k` low bytes of `n`, least significant first. */
  function LittleEndian(n: nat, k: nat): (e: seq<byte>)
    ensures |e| == k
    decreases k
  {
    if k == 0 then [] else [n % 256] + LittleEndian(n / 256, k - 1)
  }

  function FromLittleEndian(e: seq<byte>): nat {
    if e == [] then 0 else e[0] + 256 * FromLittleEndian(e[1..])
  }

  function Pow256(k: nat): nat {
    if k == 0 then 1 else 256 * Pow256(k - 1)
  }

  lemma {:induction false} FromInvertsLittleEndian(n: nat, k: nat)
    requires n < Pow256(k)
    ensures FromLittleEndian(LittleEndian(n, k)) == n
    decreases k
  {
    if k > 0 {
      FromInvertsLittleEndian(n / 256, k - 1);
    }
  }

  lemma {:induction false} LittleEndianInvertsFrom(e: seq<byte>)
    ensures FromLittleEndian(e) < Pow256(|e|)
    ensures LittleEndian(FromLittleEndian(e), |e|) == e
  {
    if e != [] {
      LittleEndianInvertsFrom(e[1..]);
    }
  }
}
