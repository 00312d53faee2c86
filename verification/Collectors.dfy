/** The two collection loops. */
module Collectors {
  import opened Optional
  import opened Ordering
  import opened Pagination

  /** Before the next request: `token` is the one to send, no token repeats, and `seen` holds them. */
  ghost predicate Ready<T>(pages: seq<Page<T>>, token: Option<string>, seen: set<string>) {
    && token == TokenAt(pages, |pages|)
    && Distinct(Tokens(pages))
    && forall t :: t in seen <==> Some(t) in Tokens(pages)
  }

  lemma ReadyNext<T>(pages: seq<Page<T>>, token: Option<string>, seen: set<string>, page: Page<T>, t: string)
    requires Ready(pages, token, seen) && page.next == Token(t) && t !in seen
    ensures Ready(pages + [page], Some(t), seen + {t})
  {
    assert Tokens(pages + [page]) == Tokens(pages) + [Some(t)];
  }

  /** The last page offers a token that has been sent before. */
  ghost predicate Repeats<T>(pages: seq<Page<T>>) {
    && pages != [] && pages[|pages| - 1].next.Token?
    && FollowUp(pages[|pages| - 1].next) in Sent(pages)
  }

  lemma ReadyRepeats<T>(pages: seq<Page<T>>, token: Option<string>, seen: set<string>, page: Page<T>, t: string)
    requires Ready(pages, token, seen) && page.next == Token(t) && (t in seen || token == Some(t))
    ensures Repeats(pages + [page])
  {
    assert Sent(pages + [page]) == Tokens(pages);
  }

  lemma FirstSeenStep<T>(before: seq<T>, items: seq<T>, j: nat, key: T -> string)
    requires j < |items|
    ensures FirstSeen(before + items[..j + 1], key) == AddFirst(FirstSeen(before + items[..j], key), items[j], key)
  {
    var all := before + items[..j + 1];
    assert all[..|all| - 1] == before + items[..j];
  }

  /** Adds the items of one page until the dictionary holds `limit` keys. */
  method AddItems<T>(ghost before: seq<T>, found: seq<T>, items: seq<T>, key: T -> string, limit: int)
    returns (out: seq<T>, full: bool, ghost used: nat)
    requires found == FirstSeen(before, key) && |found| < Max(1, limit)
    ensures used <= |items| && out == FirstSeen(before + items[..used], key)
    ensures if full then |out| == Max(1, limit) else used == |items| && |out| < Max(1, limit)
  {
    out, full, used := found, false, 0;
    assert before + items[..0] == before;
    for j := 0 to |items|
      invariant used == j && out == FirstSeen(before + items[..j], key) && |out| < Max(1, limit)
      invariant !full
    {
      FirstSeenStep(before, items, j, key);
      out, used := AddFirst(out, items[j], key), j + 1;
      if |out| >= limit {
        full := true;
        return;
      }
    }
  }

  lemma TranscriptNext<T>(server: Server<T>, pages: seq<Page<T>>, page: Page<T>)
    requires Transcript(server, pages) && page == server(|pages|, TokenAt(pages, |pages|))
    ensures Transcript(server, pages + [page])
    ensures Sent(pages + [page]) == Tokens(pages) && (pages + [page])[..|pages|] == pages
  {
    assert forall i :: 0 <= i < |pages| ==> Answered(server, pages, i) ==> Answered(server, pages + [page], i);
  }

  /** Adds the items of the page that follows `pages`, up to `limit` keys. */
  method AddPage<T>(ghost pages: seq<Page<T>>, page: Page<T>, key: T -> string, found0: seq<T>, limit: int)
    returns (found: seq<T>, full: bool)
    requires found0 == FirstSeen(Arrived(pages), key) && |found0| < Max(1, limit)
    ensures found == Take(FirstSeen(Arrived(pages + [page]), key), Max(1, limit))
    ensures full <==> |FirstSeen(Arrived(pages + [page]), key)| >= Max(1, limit)
  {
    ghost var used;
    found, full, used := AddItems(Arrived(pages), found0, page.items, key, limit);
    ArrivedPart(pages, page, used, key);
  }

  lemma ArrivedPart<T>(pages: seq<Page<T>>, page: Page<T>, used: nat, key: T -> string)
    requires used <= |page.items|
    ensures FirstSeen(Arrived(pages) + page.items[..used], key) <= FirstSeen(Arrived(pages + [page]), key)
    ensures used == |page.items| ==> Arrived(pages) + page.items[..used] == Arrived(pages + [page])
  {
    assert (pages + [page])[..|pages|] == pages;
    assert Arrived(pages) + page.items == Arrived(pages) + page.items[..used] + page.items[used..];
    FirstSeenGrows(Arrived(pages) + page.items[..used], page.items[used..], key);
    assert page.items[..|page.items|] == page.items;
  }

  // ----- All or error -----

  /** A string that is neither empty nor longer than 4096 characters. */
  ghost predicate Followable(next: Next) { next.Token? && next.value != "" && |next.value| <= 4096 }

  ghost predicate AllGood<T>(pages: seq<Page<T>>) {
    forall i :: 0 <= i < |pages| ==> Followable(pages[i].next)
  }

  /** The last page ends the chain, the tokens before it are usable and none repeats. */
  ghost predicate WholeChain<T>(pages: seq<Page<T>>) {
    && pages != [] && pages[|pages| - 1].next == End
    && AllGood(pages[..|pages| - 1]) && Distinct(Sent(pages))
  }

  ghost predicate Calm(i: nat, cancelled: nat -> bool, expired: nat -> bool) {
    !cancelled(i) && !expired(i)
  }

  ghost predicate Undisturbed(n: nat, cancelled: nat -> bool, expired: nat -> bool) {
    forall i :: 0 <= i < n ==> Calm(i, cancelled, expired)
  }

  datatype Limits = Limits(pages: int, results: int)

  /** The pages read make each error the right one. */
  ghost predicate Justified<T>(pages: seq<Page<T>>, key: T -> string, max: Limits,
                               cancelled: nat -> bool, expired: nat -> bool, e: Error)
  {
    && Undisturbed(|pages|, cancelled, expired)
    && match e
    case Cancelled => |pages| < max.pages && cancelled(|pages|) && AllGood(pages) && FewEnough(pages, key, max)
    case Timeout =>
      |pages| < max.pages && !cancelled(|pages|) && expired(|pages|) && AllGood(pages) && FewEnough(pages, key, max)
    case Truncated =>
      || (pages != [] && AllGood(pages[..|pages| - 1]) && |FirstSeen(Arrived(pages), key)| > max.results)
      || (|pages| == Max(0, max.pages) && AllGood(pages) && FewEnough(pages, key, max))
    case TokenInvalid =>
      && pages != [] && AllGood(pages[..|pages| - 1]) && FewEnough(pages, key, max)
      && pages[|pages| - 1].next != End && !Followable(pages[|pages| - 1].next)
    case TokenLoop => AllGood(pages) && Repeats(pages) && FewEnough(pages, key, max)
  }

  /** No more distinct keys than allowed. */
  ghost predicate FewEnough<T>(pages: seq<Page<T>>, key: T -> string, max: Limits) {
    |FirstSeen(Arrived(pages), key)| <= Max(0, max.results)
  }

  /** The whole chain, first-seen items in key order, within the limit. */
  ghost predicate Whole<T>(pages: seq<Page<T>>, key: T -> string, max: Limits, items: seq<T>) {
    && WholeChain(pages)
    && items == Sheet(FirstSeen(Arrived(pages), key), key)
    && |FirstSeen(Arrived(pages), key)| <= Max(0, max.results)
  }

  lemma GoodNext<T>(pages: seq<Page<T>>, page: Page<T>)
    requires AllGood(pages)
    ensures AllGood((pages + [page])[..|pages|]) && (GoodToken(page.next) ==> AllGood(pages + [page]))
  {
    assert (pages + [page])[..|pages|] == pages;
  }

  lemma ChainEnds<T>(pages: seq<Page<T>>, page: Page<T>)
    requires AllGood(pages) && page.next == End && Distinct(Sent(pages + [page]))
    ensures WholeChain(pages + [page])
  {
    GoodNext(pages, page);
  }

  lemma CalmNext(n: nat, cancelled: nat -> bool, expired: nat -> bool)
    requires Undisturbed(n, cancelled, expired) && Calm(n, cancelled, expired)
    ensures Undisturbed(n + 1, cancelled, expired)
  {}

  /** Either the whole chain, or the reason why not. `pages` records the conversation. */
  method CollectAll<T>(server: Server<T>, key: T -> string, max: Limits,
                       cancelled: nat -> bool, expired: nat -> bool) returns (r: Outcome<T>, pages: seq<Page<T>>)
    ensures Transcript(server, pages) && |pages| <= Max(0, max.pages) && Distinct(Sent(pages))
    ensures r.Items? ==> Whole(pages, key, max, r.items) && Undisturbed(|pages|, cancelled, expired)
    ensures r.Failed? ==> Justified(pages, key, max, cancelled, expired, r.error)
  {
    pages := [];
    var token: Option<string> := None;
    var seenTokens: set<string> := {};
    var found: seq<T> := [];
    while |pages| < max.pages
      invariant |pages| <= Max(0, max.pages)
      invariant Transcript(server, pages) && Ready(pages, token, seenTokens) && AllGood(pages)
      invariant found == FirstSeen(Arrived(pages), key) && |found| <= Max(0, max.results)
      invariant Undisturbed(|pages|, cancelled, expired)
    {
      if cancelled(|pages|) {
        return Failed(Cancelled), pages;
      }
      if expired(|pages|) {
        return Failed(Timeout), pages;
      }
      var page := server(|pages|, token);
      ghost var before := pages;
      var full;
      found, full := AddPage(pages, page, key, found, max.results + 1);
      pages := pages + [page];
      TranscriptNext(server, before, page);
      GoodNext(before, page);
      CalmNext(|before|, cancelled, expired);
      if full {
        return Failed(Truncated), pages;
      }
      if page.next == End {
        ChainEnds(before, page);
        return Items(Sheet(found, key)), pages;
      }
      if !GoodToken(page.next) {
        return Failed(TokenInvalid), pages;
      }
      if page.next.value in seenTokens || Some(page.next.value) == token {
        ReadyRepeats(before, token, seenTokens, page, page.next.value);
        return Failed(TokenLoop), pages;
      }
      ReadyNext(before, token, seenTokens, page, page.next.value);
      seenTokens, token := seenTokens + {page.next.value}, Some(page.next.value);
    }
    return Failed(Truncated), pages;
  }

  /** No error is justified when there is a whole chain within the limits: together with the
      contract of `CollectAll`, the collection succeeds if and only if there is one. */
  lemma {:induction false} WholeChainSucceeds<T>(server: Server<T>, key: T -> string, max: Limits, cancelled: nat -> bool,
                              expired: nat -> bool, chain: seq<Page<T>>, pages: seq<Page<T>>, e: Error)
    requires Transcript(server, chain) && WholeChain(chain) && |chain| <= max.pages
    requires Undisturbed(|chain|, cancelled, expired) && |FirstSeen(Arrived(chain), key)| <= max.results
    requires Transcript(server, pages) && |pages| <= max.pages
    ensures !Justified(pages, key, max, cancelled, expired, e)
  {
    if |pages| > |chain| {
      TranscriptUnique(server, chain, pages);
      assert pages[..|pages| - 1][|chain| - 1].next == End;
    } else {
      TranscriptUnique(server, pages, chain);
      if AllGood(pages) {
        WholeChainEnds(chain, pages);
        assert Calm(|pages|, cancelled, expired);
      }
      match e
      case Truncated =>
        ArrivedGrows(pages, chain);
        var a, b := Arrived(pages), Arrived(chain);
        assert b == a + b[|a|..];
        FirstSeenGrows(a, b[|a|..], key);
      case TokenInvalid =>
        if 0 < |pages| < |chain| {
          assert GoodToken(chain[..|chain| - 1][|pages| - 1].next);
        }
      case TokenLoop =>
        if AllGood(pages) && Repeats(pages) {
          NoRepeatInside(chain, pages);
        }
      case _ =>
    }
  }

  lemma WholeChainEnds<T>(chain: seq<Page<T>>, pages: seq<Page<T>>)
    requires WholeChain(chain) && pages <= chain && AllGood(pages)
    ensures |pages| < |chain|
  {
    assert !GoodToken(chain[|chain| - 1].next);
  }

  lemma NoRepeatInside<T>(chain: seq<Page<T>>, pages: seq<Page<T>>)
    requires pages <= chain && |pages| < |chain| && Distinct(Sent(chain))
    ensures !Repeats(pages)
  {
    if pages != [] {
      var k := |pages|;
      assert Sent(chain)[k] == FollowUp(pages[k - 1].next);
      forall i | 0 <= i < k ensures Sent(pages)[i] != FollowUp(pages[k - 1].next) {
        assert Sent(chain)[i] != Sent(chain)[k];
        assert i > 0 ==> pages[i - 1] == chain[i - 1];
      }
    }
  }

  // ----- Early stop -----

  /** A missing or empty token ends the chain. */
  predicate Ends(next: Next) { next == End || next == Token("") }

  ghost predicate NotEnded<T>(pages: seq<Page<T>>) {
    forall i :: 0 <= i < |pages| ==> !Ends(pages[i].next)
  }

  /** The first distinct items to arrive, as many as asked for, or all of them when the chain ends before;
      nothing is requested once there are enough. A limit below one still takes one item. */
  ghost predicate Enough<T>(pages: seq<Page<T>>, key: T -> string, max: Limits, items: seq<T>) {
    var seen := FirstSeen(Arrived(pages), key);
    && pages != [] && NotEnded(pages[..|pages| - 1])
    && |FirstSeen(Arrived(pages[..|pages| - 1]), key)| < Max(1, max.results)
    && items == Sheet(Take(seen, Max(1, max.results)), key)
    && (|seen| >= Max(1, max.results) || Ends(pages[|pages| - 1].next))
  }

  ghost predicate Uncancelled(n: nat, cancelled: nat -> bool) { forall i :: 0 <= i < n ==> !cancelled(i) }

  lemma UncancelledNext(n: nat, cancelled: nat -> bool)
    requires Uncancelled(n, cancelled) && !cancelled(n)
    ensures Uncancelled(n + 1, cancelled)
  {}

  lemma NotEndedNext<T>(pages: seq<Page<T>>, page: Page<T>)
    requires NotEnded(pages)
    ensures (pages + [page])[..|pages|] == pages && (!Ends(page.next) ==> NotEnded(pages + [page]))
  {}

  ghost predicate Explained<T>(pages: seq<Page<T>>, key: T -> string, max: Limits, cancelled: nat -> bool, e: Error) {
    && |FirstSeen(Arrived(pages), key)| < Max(1, max.results) && NotEnded(pages)
    && Uncancelled(|pages|, cancelled)
    && match e
       case Cancelled => |pages| < max.pages && cancelled(|pages|)
       case Truncated => |pages| == Max(0, max.pages)
       case TokenLoop => Repeats(pages)
       case _ => false
  }

  /** As many items as asked for, or everything there is. Tokens are strings or absent. */
  method CollectSome<T>(server: Server<T>, key: T -> string, max: Limits, cancelled: nat -> bool)
    returns (r: Outcome<T>, pages: seq<Page<T>>)
    requires forall i, t :: server(i, t).next != Malformed
    ensures Transcript(server, pages) && |pages| <= Max(0, max.pages) && Distinct(Sent(pages))
    ensures r.Items? ==> Enough(pages, key, max, r.items)
    ensures r.Failed? ==> Explained(pages, key, max, cancelled, r.error)
  {
    pages := [];
    var token: Option<string> := None;
    var seenTokens: set<string> := {};
    var values: seq<T> := [];
    while |pages| < max.pages
      invariant |pages| <= Max(0, max.pages)
      invariant Transcript(server, pages) && Ready(pages, token, seenTokens) && NotEnded(pages)
      invariant values == FirstSeen(Arrived(pages), key) && |values| < Max(1, max.results)
      invariant Uncancelled(|pages|, cancelled)
    {
      if cancelled(|pages|) {
        return Failed(Cancelled), pages;
      }
      var page := server(|pages|, token);
      ghost var before := pages;
      var full;
      values, full := AddPage(pages, page, key, values, max.results);
      pages := pages + [page];
      TranscriptNext(server, before, page);
      UncancelledNext(|before|, cancelled);
      NotEndedNext(before, page);
      if full || Ends(page.next) {
        return Items(Sheet(values, key)), pages;
      }
      if Some(page.next.value) == token || page.next.value in seenTokens {
        ReadyRepeats(before, token, seenTokens, page, page.next.value);
        return Failed(TokenLoop), pages;
      }
      ReadyNext(before, token, seenTokens, page, page.next.value);
      seenTokens, token := seenTokens + {page.next.value}, Some(page.next.value);
    }
    return Failed(Truncated), pages;
  }

  /** No error is explained when enough, or everything, can be had within the limits: together with the
      contract of `CollectSome`, the collection succeeds if and only if it can be had. */
  lemma {:induction false} EnoughSucceeds<T>(server: Server<T>, key: T -> string, max: Limits, cancelled: nat -> bool,
                          chain: seq<Page<T>>, items: seq<T>, pages: seq<Page<T>>, e: Error)
    requires Transcript(server, chain) && Enough(chain, key, max, items) && Distinct(Sent(chain))
    requires |chain| <= max.pages && forall i :: 0 <= i < |chain| ==> !cancelled(i)
    requires Transcript(server, pages)
    ensures !Explained(pages, key, max, cancelled, e)
  {
    if |pages| >= |chain| {
      TranscriptUnique(server, chain, pages);
      if NotEnded(pages) { AlreadyEnough(chain, pages, key, max, items); }
    } else {
      TranscriptUnique(server, pages, chain);
      if Repeats(pages) { NoRepeatInside(chain, pages); }
    }
  }

  lemma AlreadyEnough<T>(chain: seq<Page<T>>, pages: seq<Page<T>>, key: T -> string, max: Limits, items: seq<T>)
    requires Enough(chain, key, max, items) && chain <= pages && NotEnded(pages)
    ensures |FirstSeen(Arrived(pages), key)| >= Max(1, max.results)
  {
    ArrivedGrows(chain, pages);
    var a, b := Arrived(chain), Arrived(pages);
    assert b == a + b[|a|..];
    FirstSeenGrows(a, b[|a|..], key);
    assert !Ends(pages[|chain| - 1].next);
  }
}
