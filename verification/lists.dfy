/** src/parser/block/lists.rs: `parse_list` of the slice-based parser, which gathers list
    items into one list block. The item parser (`parse_list_item`, unimplemented in the
    repository) is a parameter. */
module ListsParser {
  import opened Core
  import opened Util
  import opened Tokens
  import opened Cursor

  /** `ListItemInfo`: what kind of item was read. */
  datatype ListItemInfo = Ordered(start: nat) | Unordered(marker: Byte)

  /** `parse_list_item`: given the previous item's info, an item and its info. */
  type ItemParser = (Bytes, nat, Option<ListItemInfo>) -> CStep<(Document, ListItemInfo)>

  /** An item read leaves the cursor in the slice, never before where it started, and a
      successful one moves forward; the loop of `parse_list` relies on it to end. */
  ghost predicate Advances(item: ItemParser, bytes: Bytes) {
    forall q: nat, info: Option<ListItemInfo> :: q <= |bytes| ==>
      q <= item(bytes, q, info).next <= |bytes|
      && (item(bytes, q, info).result.Success? ==> q < item(bytes, q, info).next)
  }

  /** What the loop of `parse_list` gathered: the items, the info of the last one (or the
      info it started with when there is none), and the position after. */
  datatype ListItems = ListItems(items: seq<Document>, last: Option<ListItemInfo>, next: nat)

  /** The loop of `parse_list` from `p`, the previous item's info being `current`: read
      items while the item parser succeeds. The mark taken before each call is never reset,
      so the cursor stays where the call that did not succeed left it. */
  function CollectItems(item: ItemParser, bytes: Bytes, p: nat, current: Option<ListItemInfo>): (r: ListItems)
    requires p <= |bytes| && Advances(item, bytes)
    ensures p <= r.next <= |bytes|
    ensures |r.items| == 0 ==> r.last == current && r.next == item(bytes, p, current).next
    ensures |r.items| > 0 ==> r.last.Some?
    decreases |bytes| - p
  {
    var s := item(bytes, p, current);
    if s.result.Success? then
      var (doc, info) := s.result.value;
      var rest := CollectItems(item, bytes, s.next, Some(info));
      ListItems([doc] + rest.items, rest.last, rest.next)
    else ListItems([], current, s.next)
  }

  /** `parse_list`: no list without an item; otherwise the kind of the last item decides
      between an ordered list, numbered from its start, and an unordered one. */
  function ParseList(item: ItemParser, bytes: Bytes, p: nat): (r: CStep<Block>)
    requires p <= |bytes| && Advances(item, bytes)
    ensures r.result.NoParse? <==> !item(bytes, p, None).result.Success?
    ensures r.result.Success? ==> r.result.value.OrderedList? || r.result.value.UnorderedList?
    ensures !r.result.End?
  {
    var l := CollectItems(item, bytes, p, None);
    match l.last
    case None => CStep(NoParse, l.next)
    case Some(Ordered(start)) => CStep(Success(OrderedList(start, l.items)), l.next)
    case Some(Unordered(_)) => CStep(Success(UnorderedList(l.items)), l.next)
  }

  /** The info passed to the `j`-th item call: none for the first, then the previous one's. */
  function Prev(first: Option<ListItemInfo>, infos: seq<ListItemInfo>, j: nat): (o: Option<ListItemInfo>)
    requires j <= |infos|
    ensures j > 0 ==> o == Some(infos[j - 1])
    ensures j == 0 ==> o == first
  {
    if j == 0 then first else Some(infos[j - 1])
  }

  /** A run of item calls: the `j`-th call, at `at[j]` with the previous item's info, reads
      `docs[j]` with info `infos[j]` and stops at `at[j + 1]`; the call after the last
      item does not succeed. */
  ghost predicate ItemRun(item: ItemParser, bytes: Bytes, at: seq<nat>, docs: seq<Document>,
                          infos: seq<ListItemInfo>, first: Option<ListItemInfo>) {
    |at| == |docs| + 1 && |infos| == |docs|
    && (forall j :: 0 <= j < |at| ==> at[j] <= |bytes|)
    && (forall j :: 0 <= j < |docs| ==>
          item(bytes, at[j], Prev(first, infos, j)) == CStep(Success((docs[j], infos[j])), at[j + 1]))
    && !item(bytes, at[|docs|], Prev(first, infos, |docs|)).result.Success?
  }

  /** The loop gathers exactly the items of the run, in order, with the info of the last
      item, and leaves the cursor where the call after the last item left it. */
  lemma {:induction false} CollectFollowsRun(item: ItemParser, bytes: Bytes, at: seq<nat>, docs: seq<Document>,
                                             infos: seq<ListItemInfo>, first: Option<ListItemInfo>)
    requires Advances(item, bytes) && ItemRun(item, bytes, at, docs, infos, first)
    ensures CollectItems(item, bytes, at[0], first)
      == ListItems(docs, Prev(first, infos, |docs|), item(bytes, at[|docs|], Prev(first, infos, |docs|)).next)
    decreases |docs|
  {
    if |docs| > 0 {
      assert item(bytes, at[0], Prev(first, infos, 0)) == CStep(Success((docs[0], infos[0])), at[1]);
      var at', docs', infos' := at[1..], docs[1..], infos[1..];
      forall j | 0 <= j < |docs'|
        ensures item(bytes, at'[j], Prev(Some(infos[0]), infos', j)) == CStep(Success((docs'[j], infos'[j])), at'[j + 1])
      {
        assert Prev(Some(infos[0]), infos', j) == Prev(first, infos, j + 1);
        assert item(bytes, at[j + 1], Prev(first, infos, j + 1)) == CStep(Success((docs[j + 1], infos[j + 1])), at[j + 2]);
      }
      assert Prev(Some(infos[0]), infos', |docs'|) == Prev(first, infos, |docs|);
      CollectFollowsRun(item, bytes, at', docs', infos', Some(infos[0]));
      assert docs == [docs[0]] + docs';
    }
  }

  /** `parse_list` over a run: no list without items; otherwise the items of the run, in
      order, as an ordered list numbered from the last item's start when that item is
      ordered, and as an unordered list when it is not. The cursor is where the call after
      the last item left it, `e`. */
  lemma ListFromRun(item: ItemParser, bytes: Bytes, at: seq<nat>, docs: seq<Document>, infos: seq<ListItemInfo>, e: nat)
    requires Advances(item, bytes) && ItemRun(item, bytes, at, docs, infos, None)
    requires e == item(bytes, at[|docs|], Prev(None, infos, |docs|)).next
    ensures |docs| == 0 ==> ParseList(item, bytes, at[0]) == CStep(NoParse, e)
    ensures |docs| > 0 && infos[|docs| - 1].Ordered? ==>
      ParseList(item, bytes, at[0]) == CStep(Success(OrderedList(infos[|docs| - 1].start, docs)), e)
    ensures |docs| > 0 && infos[|docs| - 1].Unordered? ==>
      ParseList(item, bytes, at[0]) == CStep(Success(UnorderedList(docs)), e)
  {
    CollectFollowsRun(item, bytes, at, docs, infos, None);
  }
}
