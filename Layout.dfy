/**
 * The rows and tables that buildForm lays out: each row is its year label,
 * twelve numbered month inputs with a quarter slot after every third, and a
 * year-to-date slot; each table carries its number as caption.
 */
module Layout {
  import opened Grid

  /** One element of a table row, in render order. */
  datatype Slot =
    | Year(year: int)                      // the row's year, shown as plain text
    | Month(key: nat)                      // a numbered input
    | Part(index: nat, text: Option<real>) // "part_i": None is the empty text
    | Ytd(text: Option<real>)              // "ytd": None is the empty text

  datatype TableLayout = TableLayout(caption: nat, rows: seq<seq<Slot>>)

  /** Year, 12 months, 4 quarters and the year-to-date slot. */
  const RowWidth: nat := 18
  const YtdSlot: nat := 17

  /** Index of month j of quarter i: after the year and i earlier quarters of four slots. */
  function MonthSlot(i: nat, j: nat): nat
  {
    1 + 4 * i + j
  }

  /** Index of the slot of quarter i, right after its three months. */
  function PartSlot(i: nat): nat
  {
    4 + 4 * i
  }

  /** The month inputs of a row of the right width: key 3i + j at slot 1 + 4i + j. */
  predicate MonthsAt(slots: seq<Slot>)
    requires |slots| == RowWidth
  {
    forall i, j :: 0 <= i < PartCount && 0 <= j < PartSize ==>
      slots[MonthSlot(i, j)] == Month(PartSize * i + j)
  }

  /** With the month inputs in place, every key 0..11 occurs in the row. */
  lemma {:induction false} MonthsPresent(slots: seq<Slot>)
    requires |slots| == RowWidth && MonthsAt(slots)
    ensures forall m :: 0 <= m < MonthCount ==> Month(m) in slots
  {
    forall m | 0 <= m < MonthCount
      ensures Month(m) in slots
    {
      assert slots[MonthSlot(m / PartSize, m % PartSize)] == Month(m);
    }
  }

  /** The fixed shape of a row, whatever its year and derived texts. Every
      month key 0..11 has its input in such a row. */
  predicate LaidOut(slots: seq<Slot>)
    ensures LaidOut(slots) ==> forall m :: 0 <= m < MonthCount ==> Month(m) in slots
  {
    if |slots| == RowWidth && MonthsAt(slots) then
      MonthsPresent(slots);
      slots[0].Year?
      && (forall i :: 0 <= i < PartCount ==> slots[PartSlot(i)].Part? && slots[PartSlot(i)].index == i)
      && slots[YtdSlot].Ytd?
    else false
  }

  /** Every month key 0..11 has its input in a laid-out row, in key order. */
  lemma {:induction false} MonthKeysInOrder(slots: seq<Slot>, m: nat, m': nat)
    requires LaidOut(slots) && m < MonthCount && m' < MonthCount
    ensures slots[MonthSlot(m / PartSize, m % PartSize)] == Month(m)
    ensures m < m' ==> MonthSlot(m / PartSize, m % PartSize) < MonthSlot(m' / PartSize, m' % PartSize)
  {
    assert PartSize * (m / PartSize) + m % PartSize == m;
  }

  /** The slots of a laid-out row are told apart by their kind alone: year
      first, then months, quarter slots and the year-to-date slot. */
  lemma {:induction false} SlotKinds(slots: seq<Slot>, k: nat)
    requires LaidOut(slots) && k < RowWidth
    ensures slots[k].Year? <==> k == 0
    ensures slots[k].Ytd? <==> k == YtdSlot
    ensures slots[k].Part? <==> exists i :: 0 <= i < PartCount && k == PartSlot(i)
    ensures slots[k].Month? <==> exists i, j :: 0 <= i < PartCount && 0 <= j < PartSize && k == MonthSlot(i, j)
  {
    if k != 0 && k != YtdSlot {
      var i, j := (k - 1) / 4, (k - 1) % 4;
      assert k == 1 + 4 * i + j;
      if j < 3 {
        assert k == MonthSlot(i, j);
      } else {
        assert k == PartSlot(i);
      }
    }
  }
}
