/** The board: after a load every column's container is emptied, then each fetched card
    is appended to the container named after its `column_name`. */
module Board {
  import opened Wrappers
  import opened Seqs
  import opened Cards

  /** The containers' contents, one per column present on the page (in page order), and how
      many cards were appended before the rendering stopped. */
  datatype Board = Board(buckets: seq<seq<Card>>, rendered: nat)

  /** Card `c` belongs in column `j` of a page whose column containers are named `columns`. */
  predicate InColumn(c: Card, columns: seq<string>, j: int) {
    FirstIndexOf(columns, c.columnName) == Some(j)
  }

  /** Buckets the fetched cards by column. A card whose column has no container on the page
      makes the append throw, which ends the rendering at that card. */
  method BucketCards(columns: seq<string>, cards: seq<Card>) returns (b: Board)
    ensures |b.buckets| == |columns|
    ensures b.rendered <= |cards|
    ensures forall k :: 0 <= k < b.rendered ==> cards[k].columnName in columns
    ensures b.rendered < |cards| ==> cards[b.rendered].columnName !in columns
    ensures forall j :: 0 <= j < |columns| ==>
      b.buckets[j] == Filter(cards[..b.rendered], c => InColumn(c, columns, j))
    ensures (forall k :: 0 <= k < |cards| ==> cards[k].columnName in columns) ==> b.rendered == |cards|
    ensures forall j, c :: 0 <= j < |columns| ==>
      multiset(b.buckets[j])[c] == if InColumn(c, columns, j) then multiset(cards[..b.rendered])[c] else 0
    ensures forall j :: 0 <= j < |columns| ==> IsSubsequence(b.buckets[j], cards[..b.rendered])
  {
    var buckets: seq<seq<Card>> := seq(|columns|, _ => []);
    var n := 0;
    while n < |cards|
      invariant n <= |cards|
      invariant |buckets| == |columns|
      invariant forall k :: 0 <= k < n ==> cards[k].columnName in columns
      invariant forall j :: 0 <= j < |columns| ==>
        buckets[j] == Filter(cards[..n], c => InColumn(c, columns, j))
    {
      var card := cards[n];
      var target := FirstIndexOf(columns, card.columnName);
      if target.None? {
        break;
      }
      assert cards[..n + 1] == cards[..n] + [card];
      buckets := buckets[target.value := buckets[target.value] + [card]];
      n := n + 1;
    }
    b := Board(buckets, n);
    forall j, c | 0 <= j < |columns|
      ensures multiset(b.buckets[j])[c] == if InColumn(c, columns, j) then multiset(cards[..n])[c] else 0
    {
      FilterCount(cards[..n], c => InColumn(c, columns, j), c);
    }
    forall j | 0 <= j < |columns|
      ensures IsSubsequence(b.buckets[j], cards[..n])
    {
      FilterKeepsOrder(cards[..n], c => InColumn(c, columns, j));
    }
  }

}
