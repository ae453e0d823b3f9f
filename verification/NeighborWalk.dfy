/** The walk over every page of a node's neighbours. */
module NeighborWalk {
  import opened Wrappers

  type Cursor = string
  type Neighbor = int

  /** A page as the server sends it; an empty `nextCursor` means there is none. */
  datatype Response = Response(items: seq<Neighbor>, nextCursor: Cursor)

  datatype Page = Page(items: seq<Neighbor>, nextCursor: Option<Cursor>)

  /** The server's answer to the n-th request, which carries the given cursor. It
      need not answer the same cursor the same way twice. */
  type Server = (nat, Cursor) -> Result<Response, Status>

  /** The protobuf empty string stands for no cursor. */
  function NonEmpty(value: Cursor): Option<Cursor> {
    if value == "" then None else Some(value)
  }

  function Sent(cursor: Option<Cursor>): Cursor {
    if cursor.Some? then cursor.value else ""
  }

  function NextPaginationCursor(seen: set<Cursor>, next: Option<Cursor>): Option<Cursor> {
    if next.Some? && next.value !in seen then next else None
  }

  /** A page names its next cursor by something other than the empty string that
      stands for none, and sending it back gives the server's own string. */
  method FetchPage(server: Server, n: nat, cursor: Option<Cursor>) returns (r: Result<Page, Status>)
    ensures r.Ok? <==> server(n, Sent(cursor)).Ok?
    ensures r.Ok? ==>
              && r.value.items == server(n, Sent(cursor)).value.items
              && r.value.nextCursor != Some("")
              && Sent(r.value.nextCursor) == server(n, Sent(cursor)).value.nextCursor
    ensures r.Err? ==> r.error == server(n, Sent(cursor)).error
  {
    match server(n, Sent(cursor)) {
      case Ok(response) => r := Ok(Page(response.items, NonEmpty(response.nextCursor)));
      case Err(status) => r := Err(status);
    }
  }

  /** Request `i` carries no cursor if it is the first, and otherwise the one that
      the page before it came back with. */
  predicate Linked(server: Server, requested: seq<Cursor>, i: nat)
    requires i < |requested|
  {
    if i == 0 then requested[0] == ""
    else
      var before := server(i - 1, requested[i - 1]);
      before.Ok? && requested[i] == before.value.nextCursor
  }

  predicate Follows(server: Server, requested: seq<Cursor>) {
    forall i :: 0 <= i < |requested| ==> Linked(server, requested, i)
  }

  predicate NoRepeat(requested: seq<Cursor>) {
    forall i, j :: 0 <= i < j < |requested| ==> requested[i] != requested[j]
  }

  /** The items of the first `n` pages asked for, in order. */
  function Items(server: Server, requested: seq<Cursor>, n: nat): seq<Neighbor>
    requires n <= |requested|
  {
    if n == 0 then []
    else
      var page := server(n - 1, requested[n - 1]);
      Items(server, requested, n - 1) + (if page.Ok? then page.value.items else [])
  }

  /** Where a walk may stop, and with what. */
  predicate Concludes(server: Server, requested: seq<Cursor>, r: Result<seq<Neighbor>, Status>)
    requires requested != []
  {
    var last := server(|requested| - 1, requested[|requested| - 1]);
    if last.Err? then r == Err(last.error)
    else
      && r == Ok(Items(server, requested, |requested|))
      && (last.value.nextCursor == "" || last.value.nextCursor in requested)
  }

  /** No chain of distinct cursors that the server hands out, one for the other,
      is longer than `limit`: it does not invent new ones for ever. */
  ghost predicate ChainsEnd(server: Server, limit: nat) {
    forall requested :: Follows(server, requested) && NoRepeat(requested) ==> |requested| <= limit
  }

  /** Walks the pages. No cursor is asked for twice, the first request's lack of
      one included, and the walk ends at the first error, or at the first page whose
      cursor is absent or already used. */
  method GetNeighbors(server: Server, ghost limit: nat)
    returns (r: Result<seq<Neighbor>, Status>, requested: seq<Cursor>)
    requires ChainsEnd(server, limit)
    ensures 1 <= |requested| <= limit
    ensures Follows(server, requested) && NoRepeat(requested)
    ensures Concludes(server, requested, r)
    ensures r.Err? ==> server(|requested| - 1, requested[|requested| - 1]) == Err(r.error)
    ensures r.Ok? ==>
              var last := server(|requested| - 1, requested[|requested| - 1]);
              && last.Ok? && (last.value.nextCursor == "" || last.value.nextCursor in requested)
              && r.value == Items(server, requested, |requested|)
  {
    var cursor: Option<Cursor> := None;
    var seenCursors: set<Cursor> := {};
    var neighbors: seq<Neighbor> := [];
    requested := [];
    while true
      invariant Walking(server, requested, cursor, neighbors)
      invariant Recalls(seenCursors, requested)
      decreases limit - |requested|
    {
      OneMore(server, requested, cursor, neighbors, seenCursors);
      WithinLimit(server, requested + [Sent(cursor)], limit);
      if cursor.Some? {
        seenCursors := seenCursors + {cursor.value};
      }
      requested := requested + [Sent(cursor)];
      var page := FetchPage(server, |requested| - 1, cursor);
      if page.Err? {
        return Err(page.error), requested;
      }
      neighbors := neighbors + page.value.items;
      match NextPaginationCursor(seenCursors, page.value.nextCursor) {
        case Some(next) => cursor := Some(next);
        case None => return Ok(neighbors), requested;
      }
    }
  }

  /** The walk so far, about to send `cursor`. */
  ghost predicate Walking(server: Server, requested: seq<Cursor>, cursor: Option<Cursor>, neighbors: seq<Neighbor>) {
    && NoRepeat(requested) && Follows(server, requested)
    && Pending(server, requested, cursor) && Sent(cursor) !in requested
    && neighbors == Items(server, requested, |requested|)
  }

  /** `seen` is what was asked for, the first request's lack of a cursor aside. */
  ghost predicate Recalls(seen: set<Cursor>, requested: seq<Cursor>) {
    forall c :: c in seen <==> c in requested && c != ""
  }

  lemma WithinLimit(server: Server, requested: seq<Cursor>, limit: nat)
    requires ChainsEnd(server, limit) && Follows(server, requested) && NoRepeat(requested)
    ensures |requested| <= limit
  {
  }

  /** `cursor` is what the next request is to carry. */
  predicate Pending(server: Server, requested: seq<Cursor>, cursor: Option<Cursor>) {
    if requested == [] then cursor == None
    else
      var last := server(|requested| - 1, requested[|requested| - 1]);
      last.Ok? && last.value.nextCursor != "" && cursor == Some(last.value.nextCursor)
  }

  /** One request later: the walk either goes on with the page's cursor or has
      reached where it may stop. */
  lemma OneMore(server: Server, requested: seq<Cursor>, cursor: Option<Cursor>, neighbors: seq<Neighbor>,
                seen: set<Cursor>)
    requires Walking(server, requested, cursor, neighbors)
    requires Recalls(seen, requested)
    ensures var more := requested + [Sent(cursor)];
            var after := if cursor.Some? then seen + {cursor.value} else seen;
            var page := server(|requested|, Sent(cursor));
            && NoRepeat(more) && Follows(server, more) && Recalls(after, more)
            && (page.Err? ==> Concludes(server, more, Err(page.error)))
            && (page.Ok? ==>
                  var next := NextPaginationCursor(after, NonEmpty(page.value.nextCursor));
                  if next.Some? then Walking(server, more, next, neighbors + page.value.items)
                  else Concludes(server, more, Ok(neighbors + page.value.items)))
  {
    var more := requested + [Sent(cursor)];
    forall i | 0 <= i < |more|
      ensures Linked(server, more, i)
    {
      if i < |requested| { assert Linked(server, requested, i); }
    }
    SameItems(server, requested, more, |requested|);
    assert forall c :: c in more <==> c in requested || c == Sent(cursor);
    assert more[|more| - 1] == Sent(cursor);
  }

  lemma {:induction false} SameItems(server: Server, a: seq<Cursor>, b: seq<Cursor>, n: nat)
    requires n <= |a| && a <= b
    ensures Items(server, a, n) == Items(server, b, n)
  {
    if n != 0 {
      SameItems(server, a, b, n - 1);
    }
  }

  // ---- when a walk ends ----------------------------------------------------

  /** A later request always carries a cursor, so a walk never starts over. */
  lemma NeverStartsOver(server: Server, requested: seq<Cursor>, i: nat)
    requires Follows(server, requested) && NoRepeat(requested) && i < |requested|
    ensures NonEmpty(requested[i]).Some? <==> i > 0
  {
    assert Linked(server, requested, 0);
  }

  /** The server alone decides what is asked for. */
  lemma {:induction false} OneChain(server: Server, a: seq<Cursor>, b: seq<Cursor>, n: nat)
    requires Follows(server, a) && Follows(server, b) && n <= |a| && n <= |b|
    ensures a[..n] == b[..n]
  {
    if n != 0 {
      OneChain(server, a, b, n - 1);
      assert Linked(server, a, n - 1) && Linked(server, b, n - 1);
      assert n > 1 ==> a[n - 2] == a[..n - 1][n - 2] == b[n - 2];
    }
  }

  lemma LongerRepeats(server: Server, requested: seq<Cursor>, r: Result<seq<Neighbor>, Status>, other: seq<Cursor>)
    requires requested != [] && Follows(server, requested) && Concludes(server, requested, r)
    requires Follows(server, other) && |other| > |requested|
    ensures !NoRepeat(other)
  {
    var n := |requested|;
    OneChain(server, requested, other, n);
    assert other[..n] == requested;
    assert Linked(server, other, n) && Linked(server, other, 0);
    var k :| 0 <= k < n && requested[k] == other[n];
    assert other[k] == other[..n][k];
  }

  /** Where the walk concludes, no longer chain of distinct cursors goes on. */
  lemma ConcludedIsLongest(server: Server, requested: seq<Cursor>, r: Result<seq<Neighbor>, Status>)
    requires requested != [] && Follows(server, requested) && NoRepeat(requested)
    requires Concludes(server, requested, r)
    ensures ChainsEnd(server, |requested|)
  {
    forall other | Follows(server, other) && |other| > |requested|
      ensures !NoRepeat(other)
    {
      LongerRepeats(server, requested, r, other);
    }
  }

  /** A walk under way can be carried to its conclusion. */
  lemma Extends(server: Server, requested: seq<Cursor>, cursor: Option<Cursor>, limit: nat)
    returns (walk: seq<Cursor>, r: Result<seq<Neighbor>, Status>)
    requires ChainsEnd(server, limit)
    requires Walking(server, requested, cursor, Items(server, requested, |requested|))
    ensures walk != [] && Follows(server, walk) && NoRepeat(walk) && Concludes(server, walk, r)
    decreases limit - |requested|
  {
    var neighbors := Items(server, requested, |requested|);
    var seen := set c | c in requested && c != "";
    OneMore(server, requested, cursor, neighbors, seen);
    walk := requested + [Sent(cursor)];
    var page := server(|requested|, Sent(cursor));
    var after := if cursor.Some? then seen + {cursor.value} else seen;
    if page.Err? {
      r := Err(page.error);
    } else {
      r := Ok(neighbors + page.value.items);
      var next := NextPaginationCursor(after, NonEmpty(page.value.nextCursor));
      if next.Some? { walk, r := Extends(server, walk, next, limit); }
    }
  }

  /** Some walk comes to its conclusion exactly if the server's chains end. */
  lemma WalkEndsIffChainsDo(server: Server)
    ensures (exists walk, r :: walk != [] && Follows(server, walk) && NoRepeat(walk) && Concludes(server, walk, r))
            <==> (exists limit: nat :: ChainsEnd(server, limit))
  {
    if walk, r :| walk != [] && Follows(server, walk) && NoRepeat(walk) && Concludes(server, walk, r) {
      ConcludedIsLongest(server, walk, r);
    }
    if limit: nat :| ChainsEnd(server, limit) {
      var walk, r := Extends(server, [], None, limit);
    }
  }

  /** Chains end against a server that draws its cursors from a finite set. */
  lemma FiniteCursorsEndChains(server: Server, cursors: set<Cursor>)
    requires forall n: nat, c: Cursor :: server(n, c).Ok? ==> server(n, c).value.nextCursor in cursors + {""}
    ensures ChainsEnd(server, |cursors| + 1)
  {
    forall requested | Follows(server, requested) && NoRepeat(requested)
      ensures |requested| <= |cursors| + 1
    {
      forall i | 0 <= i < |requested|
        ensures requested[i] in cursors + {""}
      {
        assert Linked(server, requested, i);
      }
      Pigeonhole(requested, cursors + {""});
      assert |cursors + {""}| <= |cursors| + 1;
    }
  }

  lemma {:induction false} Pigeonhole(s: seq<Cursor>, of: set<Cursor>)
    requires NoRepeat(s) && forall i :: 0 <= i < |s| ==> s[i] in of
    ensures |s| <= |of|
    decreases |s|
  {
    if s != [] {
      var n := |s| - 1;
      Pigeonhole(s[..n], of - {s[n]});
    }
  }

  // ---- an honest server ----------------------------------------------------

  predicate ServesPage(server: Server, pages: seq<seq<Neighbor>>, cursors: seq<Cursor>, n: nat, i: nat)
    requires i < |pages| == |cursors| + 1
  {
    server(n, if i == 0 then "" else cursors[i - 1])
    == Ok(Response(pages[i], if i < |cursors| then cursors[i] else ""))
  }

  /** The server lists `pages`, handing out distinct cursors between them. */
  ghost predicate Lists(server: Server, pages: seq<seq<Neighbor>>, cursors: seq<Cursor>) {
    && |pages| == |cursors| + 1
    && "" !in cursors && NoRepeat(cursors)
    && forall n: nat, i: nat :: i < |pages| ==> ServesPage(server, pages, cursors, n, i)
  }

  /** A walk against such a server is at page `n` when it makes its n-th request. */
  lemma {:induction false} HonestPrefix(server: Server, pages: seq<seq<Neighbor>>, cursors: seq<Cursor>,
                                        requested: seq<Cursor>, n: nat)
    requires Lists(server, pages, cursors) && Follows(server, requested) && NoRepeat(requested)
    requires n < |requested|
    ensures n < |pages| && requested[n] == if n == 0 then "" else cursors[n - 1]
    ensures Items(server, requested, n + 1) == Flatten(pages[..n + 1])
  {
    assert Linked(server, requested, n);
    if n > 0 {
      HonestPrefix(server, pages, cursors, requested, n - 1);
      assert ServesPage(server, pages, cursors, n - 1, n - 1);
      assert Linked(server, requested, 0);
      assert requested[n] != requested[0];
    }
    assert ServesPage(server, pages, cursors, n, n);
    assert pages[..n + 1] == pages[..n] + [pages[n]];
    FlattenAppend(pages[..n], pages[n]);
  }

  /** Against a server that lists its pages honestly, any walk that follows its
      cursors without repeating one, and stops only where the walk above does,
      returns every page in order, empty and short ones included. */
  lemma HonestWalkIsComplete(server: Server, pages: seq<seq<Neighbor>>, cursors: seq<Cursor>,
                             r: Result<seq<Neighbor>, Status>, requested: seq<Cursor>)
    requires Lists(server, pages, cursors)
    requires requested != [] && Follows(server, requested) && NoRepeat(requested)
    requires Concludes(server, requested, r)
    ensures r == Ok(Flatten(pages)) && |requested| == |pages|
  {
    var n := |requested| - 1;
    HonestPrefix(server, pages, cursors, requested, n);
    assert ServesPage(server, pages, cursors, n, n);
    if n + 1 < |pages| {
      var next := cursors[n];
      assert next in cursors;
      var k :| 0 <= k <= n && requested[k] == next;
      HonestPrefix(server, pages, cursors, requested, k);
    }
    assert pages[..n + 1] == pages;
  }
}
