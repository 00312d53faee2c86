/** Token pagination against an arbitrary server: the all-or-error collector
    (integrations/databricks/pagination.py) and the early-stop collector
    (integrations/bigquery/pagination.py). */
module Pagination {
  import opened Optional
  import opened Ordering

  /** What a page says comes next. `Malformed` is a token that is not a string. */
  datatype Next = End | Token(value: string) | Malformed

  datatype Page<T> = Page(items: seq<T>, next: Next)

  /** A server answers the n-th request and may answer it in any way, whatever was asked before. */
  type Server<!T> = (nat, Option<string>) -> Page<T>

  datatype Error = Cancelled | Timeout | Truncated | TokenInvalid | TokenLoop

  datatype Outcome<T> = Items(items: seq<T>) | Failed(error: Error)

  // ----- A conversation with a server -----

  function FollowUp(next: Next): Option<string> {
    match next
    case Token(v) => Some(v)
    case _ => None
  }

  /** The token of request `i` when every answer is followed. */
  function TokenAt<T>(pages: seq<Page<T>>, i: nat): Option<string>
    requires i <= |pages|
  {
    if i == 0 then None else FollowUp(pages[i - 1].next)
  }

  /** One token for each page, and one more to go on with. */
  function Tokens<T>(pages: seq<Page<T>>): (ts: seq<Option<string>>)
    ensures |ts| == |pages| + 1
    ensures forall i :: 0 <= i < |ts| ==> ts[i] == TokenAt(pages, i)
  {
    seq(|pages| + 1, i requires 0 <= i <= |pages| => TokenAt(pages, i))
  }

  ghost predicate Answered<T>(server: Server<T>, pages: seq<Page<T>>, i: nat)
    requires i < |pages|
  {
    pages[i] == server(i, TokenAt(pages, i))
  }

  /** The pages are the server's answers to consecutive requests. */
  ghost predicate Transcript<T>(server: Server<T>, pages: seq<Page<T>>) {
    forall i :: 0 <= i < |pages| ==> Answered(server, pages, i)
  }

  /** The tokens that have been sent to obtain the pages. */
  function Sent<T>(pages: seq<Page<T>>): seq<Option<string>> {
    Tokens(pages)[..|pages|]
  }

  /** The items of the pages, in order of arrival. */
  function Arrived<T>(pages: seq<Page<T>>): seq<T> {
    if pages == [] then [] else Arrived(pages[..|pages| - 1]) + pages[|pages| - 1].items
  }

  /** A server leaves no choice: the shorter of two transcripts is the start of the longer. */
  lemma {:induction false} TranscriptUnique<T>(server: Server<T>, a: seq<Page<T>>, b: seq<Page<T>>)
    requires Transcript(server, a) && Transcript(server, b) && |a| <= |b|
    ensures a <= b
  {
    if a != [] {
      var a' := a[..|a| - 1];
      assert forall i :: 0 <= i < |a'| ==> Answered(server, a, i) ==> Answered(server, a', i);
      TranscriptUnique(server, a', b);
      assert Answered(server, a, |a'|) && Answered(server, b, |a'|);
      assert a == a' + [a[|a'|]];
    }
  }

  // ----- First-seen items -----

  ghost predicate HasKey<T>(items: seq<T>, key: T -> string, k: string) {
    exists i :: 0 <= i < |items| && key(items[i]) == k
  }

  /** `setdefault` on an insertion-ordered dictionary. */
  function AddFirst<T>(found: seq<T>, item: T, key: T -> string): seq<T> {
    if key(item) in Mapped(found, key) then found else found + [item]
  }

  function FirstSeen<T>(items: seq<T>, key: T -> string): seq<T> {
    if items == [] then []
    else AddFirst(FirstSeen(items[..|items| - 1], key), items[|items| - 1], key)
  }

  function ByKey<T>(key: T -> string): (T, T) -> bool {
    (a: T, b: T) => StrLeq(key(a), key(b))
  }

  lemma ByKeyTotal<T(!new)>(key: T -> string)
    ensures Total(ByKey(key))
  {
    StrOrder();
    var leq := ByKey(key);
    forall a, b ensures leq(a, b) || leq(b, a) {}
    forall a, b, c | leq(a, b) && leq(b, c) ensures leq(a, c) {}
  }

  /** `x` is the earliest item that has its key. */
  ghost predicate IsFirst<T>(items: seq<T>, key: T -> string, x: T) {
    exists i :: 0 <= i < |items| && items[i] == x && forall j :: 0 <= j < i ==> key(items[j]) != key(x)
  }

  lemma {:induction false} FirstSeenExact<T>(items: seq<T>, key: T -> string)
    ensures Distinct(Mapped(FirstSeen(items, key), key))
    ensures forall x :: x in FirstSeen(items, key) ==> IsFirst(items, key, x)
    ensures forall i :: 0 <= i < |items| ==> key(items[i]) in Mapped(FirstSeen(items, key), key)
  {
    if items != [] {
      var rest, last := items[..|items| - 1], items[|items| - 1];
      var seen, more := FirstSeen(rest, key), FirstSeen(items, key);
      FirstSeenExact(rest, key);
      forall x | x in more ensures IsFirst(items, key, x) {
        if x in seen {
          var i :| 0 <= i < |rest| && rest[i] == x && forall j :: 0 <= j < i ==> key(rest[j]) != key(x);
          assert items[i] == x && forall j :: 0 <= j < i ==> key(items[j]) != key(x);
        } else {
          assert items[|rest|] == x;
          forall j | 0 <= j < |rest| ensures key(items[j]) != key(x) {
            assert key(rest[j]) in Mapped(seen, key);
          }
        }
      }
      forall i | 0 <= i < |items| ensures key(items[i]) in Mapped(more, key) {
        if i < |rest| {
          assert key(rest[i]) in Mapped(seen, key);
          var j :| 0 <= j < |seen| && Mapped(seen, key)[j] == key(rest[i]);
          assert Mapped(more, key)[j] == key(items[i]);
        } else if last !in seen && key(last) !in Mapped(seen, key) {
          assert Mapped(more, key)[|seen|] == key(last);
        }
      }
    }
  }

  /** More items never disturb what was seen first. */
  lemma {:induction false} FirstSeenGrows<T>(items: seq<T>, more: seq<T>, key: T -> string)
    ensures FirstSeen(items, key) <= FirstSeen(items + more, key)
  {
    if more == [] {
      assert items + more == items;
    } else {
      var init := more[..|more| - 1];
      FirstSeenGrows(items, init, key);
      assert (items + more)[..|items + more| - 1] == items + init;
    }
  }

  function Max(a: int, b: int): int { if a >= b then a else b }

  /** What a collector hands back: the kept items in key order. */
  function Sheet<T>(kept: seq<T>, key: T -> string): seq<T> { Sort(kept, ByKey(key)) }

  lemma {:induction false} ArrivedGrows<T>(a: seq<Page<T>>, b: seq<Page<T>>)
    requires a <= b
    ensures Arrived(a) <= Arrived(b)
  {
    if a != b {
      ArrivedGrows(a, b[..|b| - 1]);
    }
  }

  /** The returned sheet is ordered by key and holds, for every key that arrived, the item that
      arrived first, once. */
  lemma SheetExact<T(!new)>(items: seq<T>, key: T -> string)
    ensures var sheet := Sheet(FirstSeen(items, key), key);
            && (forall i, j :: 0 <= i < j < |sheet| ==>
                  StrLeq(key(sheet[i]), key(sheet[j])) && key(sheet[i]) != key(sheet[j]))
            && (forall x :: x in sheet ==> IsFirst(items, key, x))
            && (forall i :: 0 <= i < |items| ==> HasKey(sheet, key, key(items[i])))
  {
    var seen := FirstSeen(items, key);
    FirstSeenExact(items, key);
    SheetOf(seen, key);
    var sheet := Sheet(seen, key);
    forall i | 0 <= i < |items| ensures HasKey(sheet, key, key(items[i])) {
      var j :| 0 <= j < |seen| && Mapped(seen, key)[j] == key(items[i]);
      assert seen[j] in sheet;
      var l :| 0 <= l < |sheet| && sheet[l] == seen[j];
      assert key(sheet[l]) == key(items[i]);
    }
  }

  lemma SheetOf<T(!new)>(kept: seq<T>, key: T -> string)
    requires Distinct(Mapped(kept, key))
    ensures var sheet := Sheet(kept, key);
            && |sheet| == |kept|
            && (forall x :: x in sheet <==> x in kept)
            && (forall i, j :: 0 <= i < j < |sheet| ==>
                  StrLeq(key(sheet[i]), key(sheet[j])) && key(sheet[i]) != key(sheet[j]))
  {
    var sheet, leq := Sheet(kept, key), ByKey(key);
    ByKeyTotal(key);
    SortCorrect(kept, leq);
    MembersOfPermutation(kept, sheet);
    assert Distinct(kept) by {
      forall i, j | 0 <= i < j < |kept| ensures kept[i] != kept[j] {
        assert Mapped(kept, key)[i] != Mapped(kept, key)[j];
      }
    }
    DistinctMultiset(kept, sheet);
    forall i, j | 0 <= i < j < |sheet|
      ensures StrLeq(key(sheet[i]), key(sheet[j])) && key(sheet[i]) != key(sheet[j])
    {
      assert leq(sheet[i], sheet[j]);
      assert sheet[i] in kept && sheet[j] in kept && sheet[i] != sheet[j];
      var a :| 0 <= a < |kept| && kept[a] == sheet[i];
      var b :| 0 <= b < |kept| && kept[b] == sheet[j];
      assert Mapped(kept, key)[a] != Mapped(kept, key)[b];
    }
  }

  predicate GoodToken(next: Next) { next.Token? && 0 < |next.value| <= 4096 }
}
