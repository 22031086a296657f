/** Placing cards on the month grid: each card with a due date goes into the first cell
    container whose `data-date` equals the due date's part before `T`. */
module Placement {
  import opened Wrappers
  import opened Seqs
  import opened Dates
  import opened IsoKeys
  import opened Cards
  import Calendar

  /** The key a card is looked up by, when it has a due date. */
  function DueKey(c: Card): Option<string> {
    if HasDueDate(c) then Some(BeforeT(c.dueDate.value)) else None
  }

  /** Card `c` is shown in container `i` of a page whose containers carry `keys`. */
  predicate ShownAt(c: Card, keys: seq<string>, i: int) {
    DueKey(c).Some? && FirstIndexOf(keys, DueKey(c).value) == Some(i)
  }

  /** The containers' contents after placement: every container is cleared, then each card
      is appended to the container the lookup finds, in the order of the card list. */
  method PlaceCards(keys: seq<string>, cards: seq<Card>) returns (placed: seq<seq<Card>>)
    ensures |placed| == |keys|
    ensures forall i :: 0 <= i < |keys| ==> placed[i] == Filter(cards, c => ShownAt(c, keys, i))
  {
    placed := seq(|keys|, _ => []);
    for n := 0 to |cards|
      invariant |placed| == |keys|
      invariant forall i :: 0 <= i < |keys| ==> placed[i] == Filter(cards[..n], c => ShownAt(c, keys, i))
    {
      var card := cards[n];
      assert cards[..n + 1] == cards[..n] + [card];
      if HasDueDate(card) {
        var dueKey := BeforeT(card.dueDate.value);
        var found := FirstIndexOf(keys, dueKey);
        if found.Some? {
          placed := placed[found.value := placed[found.value] + [card]];
        }
      }
    }
    assert cards[..|cards|] == cards;
  }

  /** A card is shown in at most one container, never without a due date, and never when
      no container carries its key. */
  lemma ShownAtMostOnce(c: Card, keys: seq<string>, i: int, j: int)
    ensures ShownAt(c, keys, i) && ShownAt(c, keys, j) ==> i == j
    ensures !HasDueDate(c) ==> !ShownAt(c, keys, i)
    ensures DueKey(c).Some? && DueKey(c).value !in keys ==> !ShownAt(c, keys, i)
    ensures ShownAt(c, keys, i) ==> 0 <= i < |keys| && keys[i] == DueKey(c).value
  {
  }

  /** The keys of a month grid, in cell order. */
  function GridKeys(year: int, month: int, today: Date): (keys: seq<string>)
    requires Calendar.Anchor(year, month) && Valid(today)
    ensures |keys| == Calendar.GridSize
  {
    var g := Calendar.MonthGrid(year, month, today);
    seq(Calendar.GridSize, i requires 0 <= i < Calendar.GridSize => Calendar.Key(g[i]))
  }

  /** On a month grid a card due on a date the grid shows lands in that date's cell and in no
      other; a card due on a date outside the grid's six weeks is not shown at all. */
  lemma PlacementOnGrid(year: int, month: int, today: Date, c: Card, d: Date, rest: string, i: int)
    requires Calendar.Anchor(year, month) && Valid(today) && KeyDate(d)
    requires c.dueDate == Some(FormatKey(d)) || c.dueDate == Some(FormatKey(d) + "T" + rest)
    requires 0 <= i < Calendar.GridSize
    ensures ShownAt(c, GridKeys(year, month, today), i) <==> Calendar.MonthGrid(year, month, today)[i].date == d
  {
    var g := Calendar.MonthGrid(year, month, today);
    var keys := GridKeys(year, month, today);
    BeforeTOfTimestamp(d, rest);
    assert DueKey(c) == Some(FormatKey(d));
    Calendar.GridKeysDistinct(year, month, today);
    if g[i].date == d {
      FirstIndexOfDistinct(keys, i);
    }
    if ShownAt(c, keys, i) {
      FormatKeyInjective(g[i].date, d);
    }
  }
}
