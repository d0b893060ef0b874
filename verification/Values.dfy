/** The value searched for: `scanner.Value` and the comparison it selects. */
module Values {
  import opened Arithmetic
  import opened Kernel

  datatype ValueType = Bytes | Int8 | Int16 | Int32 | Int64 | Float32 | Float64 {
    function ByteSize(): nat {
      match this
      case Bytes => 0
      case Int8 => 1
      case Int16 => 2
      case Int32 | Float32 => 4
      case Int64 | Float64 => 8
    }
  }

  /**
   A typed byte pattern. `rounding` is the word test min <= x < max of a rounded float, fixed when the
   comparison is built; how IEEE arithmetic picks its bounds is not part of this model.
   */
  datatype Value = Value(typ: ValueType, data: seq<byte>, rounding: Option<seq<byte> -> bool>) {

    function Size(): nat {
      if typ.Bytes? then |data| else typ.ByteSize()
    }

    predicate Aligned() {
      !typ.Bytes?
    }

    predicate HasOption() {
      (typ.Float32? || typ.Float64?) && rounding.Some?
    }

    /** EqualBytes of the comparison that Comparable selects. */
    predicate EqualBytes(word: seq<byte>) {
      if HasOption() then rounding.value(word) else word == data
    }

    function DisturbingByte(): byte
      requires data != []
    {
      255 - data[0]
    }

    /** What the constructors establish; an empty byte pattern makes every scan panic. */
    ghost predicate Valid() {
      |data| == Size() && Size() >= 1
    }

    /** No proper prefix of the pattern is also a suffix: two occurrences cannot overlap. */
    ghost predicate BorderFree() {
      forall d :: 0 < d < |data| ==> data[d..] != data[..|data| - d]
    }
  }

  /** Every fixed-size type divides the page, so an aligned value never straddles a page boundary. */
  lemma AlignedInPage(v: Value, a: nat)
    requires v.Valid() && v.Aligned() && a % v.Size() == 0
    ensures PAGE_SIZE % v.Size() == 0
    ensures PageStart(a) <= a && a + v.Size() <= PageEnd(a)
    ensures forall x :: a <= x < a + v.Size() ==> x / PAGE_SIZE == a / PAGE_SIZE
  {
    var w := v.Size();
    var m := PAGE_SIZE / w;
    assert w * m == PAGE_SIZE;
    ModUnique(m, 0, w);
    var q, r := a / PAGE_SIZE, a % PAGE_SIZE;
    assert q * PAGE_SIZE == (q * m) * w;
    ModUnique(q * m, 0, w);
    ModAdd(q * PAGE_SIZE, r, w);
    if r != 0 {
      AlignedGap(r, PAGE_SIZE, w);
    }
  }

  /** The disturbing byte makes a slot differ from an exact pattern, whatever the rest of the slot holds. */
  lemma DisturbedNeverEqual(v: Value, slot: seq<byte>)
    requires v.Valid() && !v.HasOption()
    requires slot != [] && slot[0] == v.DisturbingByte()
    ensures !v.EqualBytes(slot)
  {
    assert v.data[0] != 255 - v.data[0];
  }
}
