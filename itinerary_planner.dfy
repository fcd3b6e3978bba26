/** The itinerary editing helpers of the planner component: the two date-format
    converters and the add / remove / change handlers. Each handler returns the
    new itinerary it hands to its change callback; the input list is never mutated. */
module ItineraryPlanner {
  import opened Types
  import opened Text
  import opened Sequences

  /** "DD/MM/YYYY" (stored form) to "YYYY-MM-DD" (date input form): the
      '/'-separated fields in reverse order, joined with '-'. No '/' is left. */
  function ToYYYYMMDD(d: string): (r: string)
    ensures d == "" ==> r == ""
    ensures '/' !in r
  {
    if d == "" then "" else
      var fields := Reverse(Split(d, '/'));
      JoinAvoids(fields, '-', '/');
      Join(fields, '-')
  }

  /** "YYYY-MM-DD" (date input form) to "DD/MM/YYYY" (stored form): the
      '-'-separated fields in reverse order, joined with '/'. No '-' is left. */
  function FromYYYYMMDD(d: string): (r: string)
    ensures d == "" ==> r == ""
    ensures '-' !in r
  {
    if d == "" then "" else
      var fields := Reverse(Split(d, '-'));
      JoinAvoids(fields, '/', '-');
      Join(fields, '/')
  }

  lemma EmptyDates()
    ensures ToYYYYMMDD("") == "" && FromYYYYMMDD("") == ""
  {
  }

  /** Reversing the pieces of `d` split on `a` and joining them with `b`, then
      reversing again on `b` and joining with `a`, gives `d` back when `d` holds no `b`. */
  lemma {:induction false} ReverseJoinRoundTrip(d: string, a: char, b: char)
    requires a != b && b !in d && d != ""
    ensures var e := Join(Reverse(Split(d, a)), b);
            e != "" && Join(Reverse(Split(e, b)), a) == d
  {
    var parts := Split(d, a);
    SplitAvoids(d, a, b);
    var rev := Reverse(parts);
    assert forall i :: 0 <= i < |rev| ==> b !in rev[i];
    var e := Join(rev, b);
    SplitJoin(rev, b);
    ReverseReverse(parts);
    JoinSplit(d, a);
  }

  /** The date input shows back exactly what it stored: to(from(d)) == d when d has no '/'. */
  lemma ToAfterFrom(d: string)
    requires '/' !in d
    ensures ToYYYYMMDD(FromYYYYMMDD(d)) == d
  {
    if d != "" {
      ReverseJoinRoundTrip(d, '-', '/');
    }
  }

  /** A stored date survives a trip through the date input: from(to(d)) == d when d has no '-'. */
  lemma FromAfterTo(d: string)
    requires '-' !in d
    ensures FromYYYYMMDD(ToYYYYMMDD(d)) == d
  {
    if d != "" {
      ReverseJoinRoundTrip(d, '/', '-');
    }
  }

  /** The date input's "2025-10-26" is stored as "26/10/2025". */
  lemma FromExample()
    ensures FromYYYYMMDD("2025-10-26") == "26/10/2025"
  {
    var parts := ["2025", "10", "26"];
    DashedPieces();
    SplitJoin(parts, '-');
    PiecesReversed();
    SlashedPieces();
  }

  /** The stored "26/10/2025" is shown in the date input as "2025-10-26". */
  lemma ToExample()
    ensures ToYYYYMMDD("26/10/2025") == "2025-10-26"
  {
    var parts := ["26", "10", "2025"];
    SlashedPieces();
    SplitJoin(parts, '/');
    PiecesReversed();
    DashedPieces();
  }

  lemma DashedPieces()
    ensures Join(["2025", "10", "26"], '-') == "2025-10-26"
  {
  }

  lemma SlashedPieces()
    ensures Join(["26", "10", "2025"], '/') == "26/10/2025"
  {
  }

  lemma PiecesReversed()
    ensures Reverse(["26", "10", "2025"]) == ["2025", "10", "26"]
    ensures Reverse(["2025", "10", "26"]) == ["26", "10", "2025"]
  {
  }

  /** handleAddItem: append one blank item whose id is the current clock value. */
  function AddItem(itinerary: seq<ItineraryItem>, now: int): (r: seq<ItineraryItem>)
    ensures |r| == |itinerary| + 1
    ensures r[..|itinerary|] == itinerary
    ensures r[|itinerary|].id == now
    ensures r[|itinerary|].country == "" && r[|itinerary|].startDate == "" && r[|itinerary|].endDate == ""
  {
    itinerary + [ItineraryItem(now, "", "", "")]
  }

  /** The callback of `itinerary.filter`. */
  function KeepTest(id: int): ItineraryItem -> bool
  {
    (item: ItineraryItem) => item.id != id
  }

  /** handleRemoveItem: keep the items whose id differs from `id`, in order. */
  function RemoveItem(itinerary: seq<ItineraryItem>, id: int): (r: seq<ItineraryItem>)
    ensures |r| <= |itinerary|
    ensures forall x :: x in r <==> x in itinerary && x.id != id
  {
    Filter(itinerary, KeepTest(id))
  }

  /** Removing an id that no item carries changes nothing. */
  lemma RemoveAbsent(itinerary: seq<ItineraryItem>, id: int)
    requires forall i :: 0 <= i < |itinerary| ==> itinerary[i].id != id
    ensures RemoveItem(itinerary, id) == itinerary
  {
    FilterKeepsAll(itinerary, KeepTest(id));
  }

  /** Removal keeps order: it acts on each part of a concatenation separately. */
  lemma RemoveConcat(a: seq<ItineraryItem>, b: seq<ItineraryItem>, id: int)
    ensures RemoveItem(a + b, id) == RemoveItem(a, id) + RemoveItem(b, id)
  {
    FilterConcat(a, b, KeepTest(id));
  }

  /** The item just added is removed again by its id, when that id was fresh. */
  lemma AddThenRemove(itinerary: seq<ItineraryItem>, now: int)
    requires forall i :: 0 <= i < |itinerary| ==> itinerary[i].id != now
    ensures RemoveItem(AddItem(itinerary, now), now) == itinerary
  {
    assert AddItem(itinerary, now)[..|itinerary|] == itinerary;
    RemoveAbsent(itinerary, now);
  }

  /** The editable fields of an item (`keyof Omit<ItineraryItem, 'id'>`). */
  datatype ItemField = CountryField | StartDateField | EndDateField

  function GetField(item: ItineraryItem, field: ItemField): string
  {
    match field
    case CountryField => item.country
    case StartDateField => item.startDate
    case EndDateField => item.endDate
  }

  /** `{ ...item, [field]: value }` */
  function SetField(item: ItineraryItem, field: ItemField, value: string): ItineraryItem
  {
    match field
    case CountryField => item.(country := value)
    case StartDateField => item.(startDate := value)
    case EndDateField => item.(endDate := value)
  }

  /** handleItemChange: set `field` to `value` on the items carrying `id`. Length,
      order and ids are kept; the named field of a matching item reads `value`,
      and every other field of every item reads as before. */
  function ItemChange(itinerary: seq<ItineraryItem>, id: int, field: ItemField, value: string): (r: seq<ItineraryItem>)
    ensures |r| == |itinerary|
    ensures forall i :: 0 <= i < |r| ==> r[i].id == itinerary[i].id
    ensures forall i, f :: 0 <= i < |r| ==>
      GetField(r[i], f) == if itinerary[i].id == id && f == field then value else GetField(itinerary[i], f)
  {
    seq(|itinerary|, i requires 0 <= i < |itinerary| =>
      if itinerary[i].id == id then SetField(itinerary[i], field, value) else itinerary[i])
  }

  /** Items whose id differs are left exactly as they were. */
  lemma ChangeLeavesOthers(itinerary: seq<ItineraryItem>, id: int, field: ItemField, value: string, i: int)
    requires 0 <= i < |itinerary| && itinerary[i].id != id
    ensures ItemChange(itinerary, id, field, value)[i] == itinerary[i]
  {
    var r := ItemChange(itinerary, id, field, value);
    assert GetField(r[i], CountryField) == itinerary[i].country;
    assert GetField(r[i], StartDateField) == itinerary[i].startDate;
    assert GetField(r[i], EndDateField) == itinerary[i].endDate;
  }

  /** Repeating the same change is a no-op. */
  lemma ChangeIdempotent(itinerary: seq<ItineraryItem>, id: int, field: ItemField, value: string)
    ensures ItemChange(ItemChange(itinerary, id, field, value), id, field, value)
         == ItemChange(itinerary, id, field, value)
  {
    var r := ItemChange(itinerary, id, field, value);
    var rr := ItemChange(r, id, field, value);
    forall i | 0 <= i < |r| ensures rr[i] == r[i] {
      assert GetField(rr[i], CountryField) == GetField(r[i], CountryField);
      assert GetField(rr[i], StartDateField) == GetField(r[i], StartDateField);
      assert GetField(rr[i], EndDateField) == GetField(r[i], EndDateField);
    }
  }
}
