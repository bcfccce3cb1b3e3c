/** Key packing (cpp/table_key.h): a table id above a 48-bit primary key, and inside an index's
    own key space a 20-bit value above a 28-bit primary key. */
module TableKey {

  const KEY_SPACE := 0x1_0000_0000_0000   // 2^48
  const VALUE_SPACE := 0x10_0000          // 2^20
  const PK_SPACE := 0x1000_0000           // 2^28
  const MAX_TABLES := 0x7FFF              // ids whose packed keys stay below the empty-slot marker

  const PRIMARY_KEY_MASK := KEY_SPACE - 1
  const SECONDARY_VALUE_MASK := VALUE_SPACE - 1
  const SECONDARY_PK_MASK := PK_SPACE - 1

  function PackKey(tableId: int, primaryKey: int): int {
    tableId * KEY_SPACE + primaryKey % KEY_SPACE
  }

  function UnpackPrimaryKey(packed: int): int {
    packed % KEY_SPACE
  }

  function PackComposite(value: int, primaryKey: int): int {
    (value % VALUE_SPACE) * PK_SPACE + primaryKey % PK_SPACE
  }

  function UnpackSecondaryPk(composite: int): int {
    composite % PK_SPACE
  }

  predicate IsTableId(t: int) {
    0 <= t < MAX_TABLES
  }

  predicate IsPk(pk: int) {
    0 <= pk <= PRIMARY_KEY_MASK
  }

  /** The shifts, masks and ors of the source are this arithmetic, on 64-bit words. */
  lemma PackIsBits(t: bv64, pk: bv64)
    ensures (t << 48) | (pk & 0xFFFF_FFFF_FFFF) == t * 0x1_0000_0000_0000 + pk % 0x1_0000_0000_0000
  {
    MaskIsMod(pk);
    assert t << 48 == t * 0x1_0000_0000_0000;
    assert (t << 48) & (pk & 0xFFFF_FFFF_FFFF) == 0;
  }

  lemma MaskIsMod(pk: bv64)
    ensures pk & 0xFFFF_FFFF_FFFF == pk % 0x1_0000_0000_0000
  {
  }

  lemma CompositeIsBits(v: bv64, pk: bv64)
    ensures ((v & 0xF_FFFF) << 28) | (pk & 0xFFF_FFFF) == (v % 0x10_0000) * 0x1000_0000 + pk % 0x1000_0000
  {
    assert v & 0xF_FFFF == v % 0x10_0000;
    assert pk & 0xFFF_FFFF == pk % 0x1000_0000;
    assert (v & 0xF_FFFF) << 28 == (v & 0xF_FFFF) * 0x1000_0000;
  }

  // ---- Two digits in base b ----

  lemma Digits(b: int, hi: int, lo: int)
    requires 0 <= lo < b
    ensures (hi * b + lo) % b == lo && (hi * b + lo) / b == hi
  {
    var n := hi * b + lo;
    var q, r := n / b, n % b;
    assert n == q * b + r;
    assert (q - hi) * b == lo - r;
    if q > hi { Grows(q - hi, b); } else if q < hi { Grows(hi - q, b); }
  }

  lemma Grows(k: int, b: int)
    requires k >= 1 && b > 0
    ensures k * b >= b && (-k) * b <= -b
  {
  }

  /** Packed pairs compare like the pairs. */
  lemma DigitsOrder(b: int, h1: int, l1: int, h2: int, l2: int)
    requires 0 <= l1 < b && 0 <= l2 < b
    ensures h1 * b + l1 < h2 * b + l2 <==> h1 < h2 || (h1 == h2 && l1 < l2)
    ensures h1 * b + l1 == h2 * b + l2 <==> h1 == h2 && l1 == l2
  {
    if h1 < h2 { Grows(h2 - h1, b); assert (h2 - h1) * b == h2 * b - h1 * b; }
    if h2 < h1 { Grows(h1 - h2, b); assert (h1 - h2) * b == h1 * b - h2 * b; }
  }

  lemma ModOfSmall(n: int, b: int)
    requires 0 <= n < b
    ensures n % b == n
  {
  }

  // ---- Row keys ----

  /** Packing is injective and keeps each table's rows together, in primary-key order. */
  lemma PackOrder(t1: int, p1: int, t2: int, p2: int)
    requires IsPk(p1) && IsPk(p2)
    ensures PackKey(t1, p1) < PackKey(t2, p2) <==> t1 < t2 || (t1 == t2 && p1 < p2)
    ensures PackKey(t1, p1) == PackKey(t2, p2) <==> t1 == t2 && p1 == p2
  {
    ModOfSmall(p1, KEY_SPACE);
    ModOfSmall(p2, KEY_SPACE);
    DigitsOrder(KEY_SPACE, t1, p1, t2, p2);
  }

  lemma Unpacks(t: int, pk: int)
    requires IsPk(pk)
    ensures UnpackPrimaryKey(PackKey(t, pk)) == pk && PackKey(t, pk) / KEY_SPACE == t
  {
    ModOfSmall(pk, KEY_SPACE);
    Digits(KEY_SPACE, t, pk);
  }

  /** The keys between two packed keys of a table are that table's keys between the two. */
  lemma PackedRange(t: int, lo: int, hi: int, key: int)
    requires IsPk(lo) && IsPk(hi)
    ensures PackKey(t, lo) <= key <= PackKey(t, hi) <==>
      (var pk := UnpackPrimaryKey(key); key == PackKey(t, pk) && lo <= pk <= hi)
  {
    var pk, t' := key % KEY_SPACE, key / KEY_SPACE;
    assert key == t' * KEY_SPACE + pk;
    ModOfSmall(pk, KEY_SPACE);
    assert key == PackKey(t', pk) && IsPk(pk);
    PackOrder(t', pk, t, pk);
    PackOrder(t, lo, t', pk);
    PackOrder(t', pk, t, hi);
  }

  /** Every row key is an int64 a gapped array can hold. */
  lemma PackedSize(t: int, pk: int)
    requires IsTableId(t)
    ensures 0 <= PackKey(t, pk) < 0x7FFF_FFFF_FFFF_FFFF
  {
    var low := pk % KEY_SPACE;
    assert 0 <= low < KEY_SPACE;
    assert PackKey(t, pk) == t * KEY_SPACE + low;
    TableStep(t, low);
  }

  lemma TableStep(t: int, low: int)
    requires 0 <= t < 0x7FFF && 0 <= low < 0x1_0000_0000_0000
    ensures 0 <= t * 0x1_0000_0000_0000 + low < 0x7FFF_FFFF_FFFF_FFFF
  {
  }

  // ---- Index entries ----

  /** Composites are primary keys an index can pack, and their low part is the row's key. */
  lemma Composite(v: int, pk: int)
    requires 0 <= pk <= SECONDARY_PK_MASK
    ensures IsPk(PackComposite(v, pk)) && UnpackSecondaryPk(PackComposite(v, pk)) == pk
  {
    ModOfSmall(pk, PK_SPACE);
    var high := v % VALUE_SPACE;
    Digits(PK_SPACE, high, pk);
    assert high * PK_SPACE + pk < KEY_SPACE;
  }

  /** Composites are distinct for distinct rows, and ordered by value and then by key. */
  lemma CompositeOrder(v1: int, p1: int, v2: int, p2: int)
    requires 0 <= p1 <= SECONDARY_PK_MASK && 0 <= p2 <= SECONDARY_PK_MASK
    ensures PackComposite(v1, p1) == PackComposite(v2, p2) <==> v1 % VALUE_SPACE == v2 % VALUE_SPACE && p1 == p2
    ensures PackComposite(v1, p1) < PackComposite(v2, p2) <==>
      v1 % VALUE_SPACE < v2 % VALUE_SPACE || (v1 % VALUE_SPACE == v2 % VALUE_SPACE && p1 < p2)
  {
    ModOfSmall(p1, PK_SPACE);
    ModOfSmall(p2, PK_SPACE);
    DigitsOrder(PK_SPACE, v1 % VALUE_SPACE, p1, v2 % VALUE_SPACE, p2);
  }

  /** The composites between value's first and last are the ones with that value. */
  lemma CompositeRange(value: int, v: int, pk: int)
    requires 0 <= value <= SECONDARY_VALUE_MASK && 0 <= pk <= SECONDARY_PK_MASK
    ensures PackComposite(value, 0) <= PackComposite(v, pk) <= PackComposite(value, SECONDARY_PK_MASK)
      <==> v % VALUE_SPACE == value
  {
    ModOfSmall(value, VALUE_SPACE);
    CompositeOrder(value, 0, v, pk);
    CompositeOrder(v, pk, value, 0);
    CompositeOrder(v, pk, value, SECONDARY_PK_MASK);
    CompositeOrder(value, SECONDARY_PK_MASK, v, pk);
  }
}
