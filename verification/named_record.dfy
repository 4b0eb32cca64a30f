/** A named record: a fixed-length tuple whose slots are addressed by the
    members of an enumeration instead of by position (`cor::TupleTraits`).
    The heterogeneous element types of the tuple become one `Value`
    datatype, and the compile-time checks on ids and arity become
    preconditions. */
module NamedRecord {
  import Text

  /** The element types a record slot can hold. */
  datatype Kind = IntKind | StrKind

  datatype Value = Int(i: int) | Str(s: string)

  function KindOf(v: Value): Kind {
    match v
    case Int(_) => IntKind
    case Str(_) => StrKind
  }

  /** What the stream output operator of the element type writes. */
  function Show(v: Value): string {
    match v
    case Int(i) => Text.ShowInt(i)
    case Str(s) => s
  }

  /** The traits of one record type: the enumeration's `Last_` member (as
      its underlying integer), the element type of every slot, and the
      field names supplied by the info type. */
  datatype Traits = Traits(last: nat, slots: seq<Kind>, names: seq<string>)

  /** The arity fixed by `Last_` is the tuple's arity, and every field has a name. */
  predicate Valid(tr: Traits) {
    |tr.slots| == tr.last + 1 && |tr.names| == tr.last + 1
  }

  /** `TupleTraits::size`: one more than the index of `Last_`. */
  function Size(tr: Traits): (n: nat)
    ensures n == tr.last + 1
    ensures Valid(tr) ==> n == |tr.slots| == |tr.names|
  {
    tr.last + 1
  }

  /** A member of the id enumeration, by its underlying integer. */
  datatype FieldId = FieldId(ordinal: nat)

  /** Ids up to and including `Last_` name a slot. */
  predicate IsId(tr: Traits, id: FieldId) {
    id.ordinal <= tr.last
  }

  /** `Index<Id>::value`: the slot an id addresses. */
  function Index(tr: Traits, id: FieldId): (i: nat)
    requires IsId(tr, id)
    ensures i < Size(tr)
  {
    id.ordinal
  }

  /** `Enum<I>::value`: the id of slot `i`, defined only up to `Last_`. */
  function Enum(tr: Traits, i: nat): (id: FieldId)
    requires i <= tr.last
    ensures IsId(tr, id) && Index(tr, id) == i
  {
    FieldId(i)
  }

  /** `Index` and `Enum` are inverse bijections between the ids up to
      `Last_` and the slot positions. */
  lemma IndexEnumBijection(tr: Traits)
    ensures forall i :: 0 <= i <= tr.last ==> Index(tr, Enum(tr, i)) == i
    ensures forall id :: IsId(tr, id) ==> Enum(tr, Index(tr, id)) == id
  {
  }

  /** A tuple of the record's type: the right arity and the right element
      type in every slot. */
  predicate IsRecord(tr: Traits, t: seq<Value>) {
    Valid(tr) && |t| == Size(tr) && forall i :: 0 <= i < |t| ==> KindOf(t[i]) == tr.slots[i]
  }

  /** `TupleTraits::get<Id>` and the free `get<TupleTraitsT, Id>`. */
  function Get(tr: Traits, t: seq<Value>, id: FieldId): (v: Value)
    requires IsRecord(tr, t) && IsId(tr, id)
    ensures KindOf(v) == tr.slots[Index(tr, id)]
  {
    t[Index(tr, id)]
  }

  /** Access by id is access by position. */
  lemma GetIsPositional(tr: Traits, t: seq<Value>)
    requires IsRecord(tr, t)
    ensures forall i :: 0 <= i <= tr.last ==> Get(tr, t, Enum(tr, i)) == t[i]
  {
  }

  /** `TupleTraits::set<Id>`: assigns one slot of the tuple in place. */
  method Set(tr: Traits, from: array<Value>, id: FieldId, v: Value)
    requires IsRecord(tr, from[..]) && IsId(tr, id)
    requires KindOf(v) == tr.slots[Index(tr, id)]
    modifies from
    ensures IsRecord(tr, from[..])
    ensures Get(tr, from[..], id) == v
    ensures forall other :: IsId(tr, other) && other != id ==>
              Get(tr, from[..], other) == old(Get(tr, from[..], other))
  {
    from[Index(tr, id)] := v;
  }

  /** `name<TupleTraitsT, Id>()`: the name the info type gives to a field. */
  function Name(tr: Traits, id: FieldId): string
    requires Valid(tr) && IsId(tr, id)
  {
    tr.names[Index(tr, id)]
  }

  /** One `name=value` entry of the printed record. */
  function Entry(tr: Traits, t: seq<Value>, i: nat): string
    requires IsRecord(tr, t) && i <= tr.last
  {
    var id := Enum(tr, i);
    Name(tr, id) + "=" + Show(Get(tr, t, id))
  }

  /** The items separated by `sep`, with no separator before the first
      item or after the last. */
  function Join(items: seq<string>, sep: string): string {
    if |items| == 0 then ""
    else if |items| == 1 then items[0]
    else items[0] + sep + Join(items[1..], sep)
  }

  /** Every entry of the record, in ascending slot order. */
  function Entries(tr: Traits, t: seq<Value>): (es: seq<string>)
    requires IsRecord(tr, t)
    ensures |es| == Size(tr)
    ensures forall i :: 0 <= i < |es| ==> es[i] == Entry(tr, t, i)
  {
    seq(Size(tr), i requires 0 <= i < Size(tr) => Entry(tr, t, i))
  }

  /** `RecordPrintablePair<N>::out`: the entries from index `last - n` to
      `last`, each but the last followed by ", ". */
  function PrintPairs(tr: Traits, t: seq<Value>, n: nat): (s: string)
    requires IsRecord(tr, t) && n <= tr.last
    ensures s == Join(Entries(tr, t)[tr.last - n..], ", ")
    decreases n
  {
    var tail := Entries(tr, t)[tr.last - n..];
    if n == 0 then
      assert tail == [Entry(tr, t, tr.last)];
      Entry(tr, t, tr.last)
    else
      assert tail[0] == Entry(tr, t, tr.last - n);
      assert tail[1..] == Entries(tr, t)[tr.last - (n - 1)..];
      Entry(tr, t, tr.last - n) + ", " + PrintPairs(tr, t, n - 1)
  }

  /** The stream output operator of `PrintableRecord` (`printable`):
      "(", every `name=value` entry in ascending slot order separated by
      ", ", then ")". */
  function Print(tr: Traits, t: seq<Value>): (s: string)
    requires IsRecord(tr, t)
    ensures s == "(" + Join(Entries(tr, t), ", ") + ")"
  {
    assert Entries(tr, t)[0..] == Entries(tr, t);
    "(" + PrintPairs(tr, t, tr.last) + ")"
  }

  /** The record type of two fields `A` (an int) and `B` (a string). */
  const TwoFields := Traits(1, [IntKind, StrKind], ["A", "B"])

  lemma TwoFieldEntries()
    ensures IsRecord(TwoFields, [Int(12), Str("E")])
    ensures Entries(TwoFields, [Int(12), Str("E")]) == ["A=12", "B=E"]
  {
    var t := [Int(12), Str("E")];
    var es := Entries(TwoFields, t);
    assert es[0] == "A=12" by {
      assert Show(t[0]) == "12" by {
        assert Text.ShowNat(12) == Text.ShowNat(1) + ['2'];
      }
    }
    assert es[1] == "B=E";
  }

  /** The record of the two fields holding 12 and "E" is printed as
      `(A=12, B=E)`. */
  lemma PrintTwoFields()
    ensures Print(TwoFields, [Int(12), Str("E")]) == "(A=12, B=E)"
  {
    TwoFieldEntries();
    assert Join(["A=12", "B=E"], ", ") == "A=12, B=E" by {
      assert ["A=12", "B=E"][1..] == ["B=E"];
    }
  }
}
