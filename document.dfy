/**
 * The timeline items of the page and the search over them. Each `.timeline-item`
 * is abstracted to its `textContent`, the text of its `h3` title, the
 * `data-period` of the `.timeline-period` that encloses it, whether it holds a
 * `.details` block, and its optional `data-event` id.
 */
module Document {
  import opened Wrappers
  import opened Text

  datatype Item = Item(text: string, title: string, period: string, hasDetails: bool, eventId: Option<string>)

  /** One search hit: the item's position in document order, its period and its title. */
  datatype Match = Match(index: nat, period: string, title: string)

  /** The item's lowercased text contains the lowercased query. */
  predicate ItemMatches(item: Item, query: string) {
    Includes(ToLower(item.text), ToLower(query))
  }

  /** The hit reported for item `j`. */
  function MatchOf(items: seq<Item>, j: nat): Match
    requires j < |items|
  {
    Match(j, items[j].period, items[j].title)
  }

  /** The hits of `searchEvents(query)`, as the loop pushes them, item by item in document order. */
  function Search(items: seq<Item>, query: string): (r: seq<Match>)
    ensures |r| <= |items|
    ensures forall k :: 0 <= k < |r| ==> r[k].index < |items|
  {
    if |items| == 0 then []
    else
      var n := |items| - 1;
      Search(items[..n], query) + (if ItemMatches(items[n], query) then [MatchOf(items, n)] else [])
  }

  /** Every hit in `r` is a matching item reported with its own period and title, in document order. */
  predicate HitsInOrder(items: seq<Item>, query: string, r: seq<Match>) {
    && (forall k :: 0 <= k < |r| ==>
          r[k].index < |items| && ItemMatches(items[r[k].index], query) && r[k] == MatchOf(items, r[k].index))
    && (forall a, b :: 0 <= a < b < |r| ==> r[a].index < r[b].index)
  }

  /** The hits are matching items, each with its own period and title, in document order. */
  lemma {:induction false} SearchSoundAndOrdered(items: seq<Item>, query: string)
    ensures HitsInOrder(items, query, Search(items, query))
  {
    if |items| > 0 {
      var n := |items| - 1;
      var prefix := Search(items[..n], query);
      SearchSoundAndOrdered(items[..n], query);
      assert forall k :: 0 <= k < |prefix| ==> prefix[k].index < n;
      forall k | 0 <= k < |prefix|
        ensures ItemMatches(items[prefix[k].index], query) && prefix[k] == MatchOf(items, prefix[k].index)
      {
        assert items[..n][prefix[k].index] == items[prefix[k].index];
      }
    }
  }

  /** Every matching item is among the hits. */
  lemma {:induction false} SearchComplete(items: seq<Item>, query: string, j: nat)
    requires j < |items| && ItemMatches(items[j], query)
    ensures exists k :: 0 <= k < |Search(items, query)| && Search(items, query)[k].index == j
  {
    var n := |items| - 1;
    var r := Search(items, query);
    if j == n {
      assert r[|r| - 1].index == j;
    } else {
      assert items[..n][j] == items[j];
      SearchComplete(items[..n], query, j);
      var k :| 0 <= k < |Search(items[..n], query)| && Search(items[..n], query)[k].index == j;
      assert r[k] == Search(items[..n], query)[k];
    }
  }

  /** The empty query matches every item, so the hits are all items in order. */
  lemma {:induction false} SearchEmptyQuery(items: seq<Item>)
    ensures Search(items, "") == seq(|items|, j requires 0 <= j < |items| => MatchOf(items, j))
  {
    if |items| > 0 {
      var n := |items| - 1;
      SearchEmptyQuery(items[..n]);
      IncludesEmpty(ToLower(items[n].text));
      var all := seq(|items|, j requires 0 <= j < |items| => MatchOf(items, j));
      assert Search(items[..n], "") == all[..n];
    }
  }

  /** Letter case in the query does not matter. */
  lemma {:induction false} SearchCaseInsensitive(items: seq<Item>, query: string)
    ensures Search(items, ToLower(query)) == Search(items, query)
  {
    ToLowerIdempotent(query);
    if |items| > 0 {
      SearchCaseInsensitive(items[..|items| - 1], query);
    }
  }

  /** A query no item contains yields no hits. */
  lemma {:induction false} SearchNoMatch(items: seq<Item>, query: string)
    requires forall j :: 0 <= j < |items| ==> !ItemMatches(items[j], query)
    ensures Search(items, query) == []
  {
    if |items| > 0 {
      var n := |items| - 1;
      assert forall j :: 0 <= j < n ==> items[..n][j] == items[j];
      SearchNoMatch(items[..n], query);
    }
  }

  /** The `data-event` attributes of the items, in document order. */
  function EventIds(items: seq<Item>): (ids: seq<Option<string>>)
    ensures |ids| == |items|
    ensures forall j :: 0 <= j < |items| ==> ids[j] == items[j].eventId
  {
    seq(|items|, j requires 0 <= j < |items| => items[j].eventId)
  }
}
