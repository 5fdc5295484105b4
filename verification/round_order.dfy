/** Ordering rounds by deadline. The backend sorts a task's rounds with
    `List.sort(Comparator.comparing(Round::getDeadline))`, a stable sort:
    rounds with the same deadline keep the order the query returned them
    in. This module models it as a stable insertion sort and proves that it
    orders, permutes and keeps ties in place. */
module RoundOrder {
  import opened Wrappers
  import opened Entities

  predicate SortedByDeadline(rs: seq<Round>) {
    forall i, j :: 0 <= i < j < |rs| ==> rs[i].deadline <= rs[j].deadline
  }

  /** Where a stable insertion of `r` goes: before the first round whose
      deadline is not earlier than `r`'s. */
  function InsertPoint(r: Round, rs: seq<Round>): (k: nat)
    ensures k <= |rs|
    ensures forall i :: 0 <= i < k ==> rs[i].deadline < r.deadline
    ensures k < |rs| ==> r.deadline <= rs[k].deadline
  {
    if |rs| == 0 || r.deadline <= rs[0].deadline then 0
    else
      var k := InsertPoint(r, rs[1..]);
      assert forall i :: 1 <= i < k + 1 ==> rs[i] == rs[1..][i - 1];
      1 + k
  }

  function Insert(r: Round, rs: seq<Round>): seq<Round> {
    var k := InsertPoint(r, rs);
    rs[..k] + [r] + rs[k..]
  }

  lemma InsertKeepsSorted(r: Round, rs: seq<Round>)
    requires SortedByDeadline(rs)
    ensures SortedByDeadline(Insert(r, rs))
  {
    var k := InsertPoint(r, rs);
    var out := Insert(r, rs);
    forall i, j | 0 <= i < j < |out| ensures out[i].deadline <= out[j].deadline {
      if j < k {
      } else if j == k {
      } else if i < k {
        assert out[j] == rs[j - 1];
      } else if i == k {
        assert out[j] == rs[j - 1];
      } else {
        assert out[i] == rs[i - 1] && out[j] == rs[j - 1];
      }
    }
  }

  /** The stable sort by deadline. */
  function SortByDeadline(rs: seq<Round>): (s: seq<Round>)
    ensures |s| == |rs|
    ensures multiset(s) == multiset(rs)
    ensures SortedByDeadline(s)
  {
    if |rs| == 0 then []
    else
      var tail := SortByDeadline(rs[1..]);
      InsertKeepsSorted(rs[0], tail);
      InsertMultiset(rs[0], tail);
      assert rs == [rs[0]] + rs[1..];
      Insert(rs[0], tail)
  }

  lemma InsertMultiset(r: Round, rs: seq<Round>)
    ensures |Insert(r, rs)| == |rs| + 1
    ensures multiset(Insert(r, rs)) == multiset{r} + multiset(rs)
  {
    var k := InsertPoint(r, rs);
    assert rs == rs[..k] + rs[k..];
  }

  /** The rounds with one given deadline, in order. */
  function WithDeadline(rs: seq<Round>, d: Day): seq<Round> {
    if |rs| == 0 then []
    else Keep(rs[0], d) + WithDeadline(rs[1..], d)
  }

  /** A round alone if it has deadline `d`, else nothing. */
  function Keep(r: Round, d: Day): seq<Round> {
    if r.deadline == d then [r] else []
  }

  lemma {:induction false} WithDeadlineConcat(a: seq<Round>, b: seq<Round>, d: Day)
    ensures WithDeadline(a + b, d) == WithDeadline(a, d) + WithDeadline(b, d)
    decreases |a|
  {
    if |a| == 0 {
      assert a + b == b;
    } else {
      var ab := a + b;
      assert ab[0] == a[0] && ab[1..] == a[1..] + b;
      assert WithDeadline(ab, d) == Keep(a[0], d) + WithDeadline(a[1..] + b, d);
      WithDeadlineConcat(a[1..], b, d);
    }
  }

  lemma {:induction false} WithDeadlineNone(rs: seq<Round>, d: Day)
    requires forall i :: 0 <= i < |rs| ==> rs[i].deadline != d
    ensures WithDeadline(rs, d) == []
    decreases |rs|
  {
    if |rs| > 0 {
      WithDeadlineNone(rs[1..], d);
    }
  }

  /** Inserting a round adds it to its own deadline's group, at the front. */
  lemma WithDeadlineInsert(r: Round, rs: seq<Round>, d: Day)
    ensures WithDeadline(Insert(r, rs), d) == Keep(r, d) + WithDeadline(rs, d)
  {
    var k := InsertPoint(r, rs);
    var a, b := rs[..k], rs[k..];
    assert rs == a + b;
    WithDeadlineAround(a, r, b, d);
    WithDeadlineConcat(a, b, d);
    var wa, wb := WithDeadline(a, d), WithDeadline(b, d);
    if r.deadline == d {
      WithDeadlineNone(a, d);
      assert wa + Keep(r, d) + wb == Keep(r, d) + (wa + wb);
    } else {
      assert wa + Keep(r, d) + wb == Keep(r, d) + (wa + wb);
    }
  }

  lemma WithDeadlineAround(a: seq<Round>, r: Round, b: seq<Round>, d: Day)
    ensures WithDeadline(a + [r] + b, d) == WithDeadline(a, d) + Keep(r, d) + WithDeadline(b, d)
  {
    WithDeadlineConcat(a + [r], b, d);
    WithDeadlineConcat(a, [r], d);
    WithDeadlineSingle(r, d);
  }

  lemma WithDeadlineSingle(r: Round, d: Day)
    ensures WithDeadline([r], d) == Keep(r, d)
  {
    assert [r][1..] == [];
  }

  /** Stability: sorting keeps the rounds that share a deadline in their
      original relative order. Together with the sort being ordered and a
      permutation, this fixes the result completely. */
  lemma {:induction false} SortIsStable(rs: seq<Round>, d: Day)
    ensures WithDeadline(SortByDeadline(rs), d) == WithDeadline(rs, d)
    decreases |rs|
  {
    if |rs| > 0 {
      SortIsStable(rs[1..], d);
      WithDeadlineInsert(rs[0], SortByDeadline(rs[1..]), d);
    }
  }

  /** Sorting rounds that are already in deadline order leaves them as they are. */
  lemma {:induction false} SortSortedIsIdentity(rs: seq<Round>)
    requires SortedByDeadline(rs)
    ensures SortByDeadline(rs) == rs
    decreases |rs|
  {
    if |rs| > 0 {
      var tail := rs[1..];
      assert SortedByDeadline(tail);
      SortSortedIsIdentity(tail);
      assert |tail| == 0 || rs[0].deadline <= tail[0].deadline;
      assert InsertPoint(rs[0], tail) == 0;
      assert Insert(rs[0], tail) == [rs[0]] + tail;
      assert rs == [rs[0]] + tail;
    }
  }

  // ---------------------------------------------------------------------
  // Where each sorted round sits in the list that was sorted
  // ---------------------------------------------------------------------

  /** The sort as a reordering of positions: `SortByDeadline(rs)[j]` is the
      round at position `SortOrder(rs)[j]` of `rs`, and no position is
      used twice. The backend sorts a list of references to its stored
      rounds, so a change made through the sorted list lands on the round
      at that position. */
  function SortOrder(rs: seq<Round>): (p: seq<nat>)
    ensures |p| == |rs|
    decreases |rs|
  {
    if |rs| == 0 then []
    else
      var shifted := Shift(SortOrder(rs[1..]));
      var k := InsertPoint(rs[0], SortByDeadline(rs[1..]));
      shifted[..k] + [0] + shifted[k..]
  }

  lemma {:induction false} SortOrderPicks(rs: seq<Round>)
    ensures Picks(rs, SortOrder(rs), SortByDeadline(rs))
    ensures DistinctPositions(SortOrder(rs))
    decreases |rs|
  {
    if |rs| > 0 {
      var tail := rs[1..];
      SortOrderPicks(tail);
      var q := SortOrder(tail);
      var shifted := Shift(q);
      var k := InsertPoint(rs[0], SortByDeadline(tail));
      assert forall j :: 0 <= j < |shifted| ==> 1 <= shifted[j] < |rs| && rs[shifted[j]] == SortByDeadline(tail)[j] by {
        forall j | 0 <= j < |shifted| ensures 1 <= shifted[j] < |rs| && rs[shifted[j]] == SortByDeadline(tail)[j] {
          assert q[j] < |tail| && tail[q[j]] == SortByDeadline(tail)[j];
        }
      }
      assert DistinctPositions(shifted) by {
        forall a, b | 0 <= a < b < |shifted| ensures shifted[a] != shifted[b] {
          assert q[a] != q[b];
        }
      }
      SortOrderStep(rs, shifted, k);
      assert SortOrder(rs) == shifted[..k] + [0] + shifted[k..];
    }
  }

  /** `s` lists the rounds of `rs` at positions `p`. */
  predicate Picks(rs: seq<Round>, p: seq<nat>, s: seq<Round>) {
    |p| == |s| && forall j :: 0 <= j < |p| ==> p[j] < |rs| && rs[p[j]] == s[j]
  }

  predicate DistinctPositions(p: seq<nat>) {
    forall i, j :: 0 <= i < j < |p| ==> p[i] != p[j]
  }

  /** Positions in `rs[1..]` as positions in `rs`. */
  function Shift(q: seq<nat>): (r: seq<nat>)
    ensures |r| == |q| && forall j :: 0 <= j < |q| ==> r[j] == q[j] + 1
  {
    seq(|q|, j requires 0 <= j < |q| => q[j] + 1)
  }

  lemma SortOrderStep(rs: seq<Round>, shifted: seq<nat>, k: nat)
    requires |rs| > 0 && |shifted| == |rs| - 1
    requires k == InsertPoint(rs[0], SortByDeadline(rs[1..]))
    requires forall j :: 0 <= j < |shifted| ==> 1 <= shifted[j] < |rs| && rs[shifted[j]] == SortByDeadline(rs[1..])[j]
    requires DistinctPositions(shifted)
    ensures var p := shifted[..k] + [0] + shifted[k..];
      |p| == |rs| && Picks(rs, p, SortByDeadline(rs)) && DistinctPositions(p)
  {
    var tail := SortByDeadline(rs[1..]);
    assert SortByDeadline(rs) == tail[..k] + [rs[0]] + tail[k..];
    InsertPositions(rs, shifted, tail, k);
    InsertDistinct(shifted, k);
  }

  /** Putting position 0 into a reordering of the later positions at `k`
      matches putting the first round into their order at `k`. */
  lemma InsertPositions(rs: seq<Round>, shifted: seq<nat>, tail: seq<Round>, k: nat)
    requires |rs| > 0 && |shifted| == |tail| == |rs| - 1 && k <= |tail|
    requires forall j :: 0 <= j < |shifted| ==> 1 <= shifted[j] < |rs| && rs[shifted[j]] == tail[j]
    ensures Picks(rs, shifted[..k] + [0] + shifted[k..], tail[..k] + [rs[0]] + tail[k..])
  {
    var p := shifted[..k] + [0] + shifted[k..];
    var out := tail[..k] + [rs[0]] + tail[k..];
    forall j | 0 <= j < |p| ensures p[j] < |rs| && rs[p[j]] == out[j] {
      if j < k {
        assert p[j] == shifted[j] && out[j] == tail[j];
      } else if j > k {
        assert p[j] == shifted[j - 1] && out[j] == tail[j - 1];
      } else {
        assert p[j] == 0 && out[j] == rs[0];
      }
    }
  }

  /** ... and uses no position twice. */
  lemma InsertDistinct(shifted: seq<nat>, k: nat)
    requires k <= |shifted|
    requires forall j :: 0 <= j < |shifted| ==> 1 <= shifted[j]
    requires DistinctPositions(shifted)
    ensures DistinctPositions(shifted[..k] + [0] + shifted[k..])
  {
    var p := shifted[..k] + [0] + shifted[k..];
    assert forall j :: 0 <= j < k ==> p[j] == shifted[j];
    assert p[k] == 0;
    assert forall j :: k < j < |p| ==> p[j] == shifted[j - 1];
  }

  /** Rounds already in deadline order are not moved: the reordering is
      the identity. */
  lemma {:induction false} SortOrderOfSorted(rs: seq<Round>)
    requires SortedByDeadline(rs)
    ensures forall j :: 0 <= j < |rs| ==> SortOrder(rs)[j] == j
    decreases |rs|
  {
    if |rs| > 0 {
      var tail := rs[1..];
      assert SortedByDeadline(tail);
      SortOrderOfSorted(tail);
      SortedFirstStaysFirst(rs);
      SortOrderFront(rs);
      ShiftIdentity(SortOrder(tail));
    }
  }

  lemma ShiftIdentity(q: seq<nat>)
    requires forall j :: 0 <= j < |q| ==> q[j] == j
    ensures forall j :: 0 <= j < |q| + 1 ==> ([0] + Shift(q))[j] == j
  {
  }

  lemma SortedFirstStaysFirst(rs: seq<Round>)
    requires |rs| > 0 && SortedByDeadline(rs)
    ensures InsertPoint(rs[0], SortByDeadline(rs[1..])) == 0
  {
    var tail := rs[1..];
    assert SortedByDeadline(tail);
    SortSortedIsIdentity(tail);
    assert |tail| == 0 || rs[0].deadline <= tail[0].deadline;
  }

  lemma SortOrderFront(rs: seq<Round>)
    requires |rs| > 0 && InsertPoint(rs[0], SortByDeadline(rs[1..])) == 0
    ensures SortOrder(rs) == [0] + Shift(SortOrder(rs[1..]))
  {
    InsertAtFront(Shift(SortOrder(rs[1..])));
  }

  lemma InsertAtFront(q: seq<nat>)
    ensures q[..0] + [0] + q[0..] == [0] + q
  {
  }

  // ---------------------------------------------------------------------
  // Active rounds
  // ---------------------------------------------------------------------

  /** Index of the first active round, scanning from the front. */
  function FirstActive(rs: seq<Round>): (r: Option<nat>)
    ensures r.Some? ==> r.value < |rs| && rs[r.value].isActive
    ensures r.Some? ==> forall j :: 0 <= j < r.value ==> !rs[j].isActive
    ensures r.None? <==> forall j :: 0 <= j < |rs| ==> !rs[j].isActive
  {
    if |rs| == 0 then None
    else if rs[0].isActive then Some(0)
    else
      match FirstActive(rs[1..])
      case None =>
        assert forall j :: 1 <= j < |rs| ==> rs[j] == rs[1..][j - 1];
        None
      case Some(i) =>
        assert forall j :: 1 <= j < i + 1 ==> rs[j] == rs[1..][j - 1];
        Some(i + 1)
  }

  /** Exactly the round at index `i` is active. */
  predicate ActiveOnlyAt(rs: seq<Round>, i: nat) {
    i < |rs| && forall j :: 0 <= j < |rs| ==> (rs[j].isActive <==> j == i)
  }

  /** The number of active rounds. */
  function ActiveCount(rs: seq<Round>): nat {
    if |rs| == 0 then 0 else (if rs[0].isActive then 1 else 0) + ActiveCount(rs[1..])
  }

  lemma {:induction false} ActiveCountConcat(a: seq<Round>, b: seq<Round>)
    ensures ActiveCount(a + b) == ActiveCount(a) + ActiveCount(b)
    decreases |a|
  {
    if |a| == 0 {
      assert a + b == b;
    } else {
      assert (a + b)[1..] == a[1..] + b;
      ActiveCountConcat(a[1..], b);
    }
  }

  /** Sorting neither adds nor removes active rounds. */
  lemma {:induction false} SortKeepsActiveCount(rs: seq<Round>)
    ensures ActiveCount(SortByDeadline(rs)) == ActiveCount(rs)
    decreases |rs|
  {
    if |rs| > 0 {
      SortKeepsActiveCount(rs[1..]);
      ActiveCountInsert(rs[0], SortByDeadline(rs[1..]));
    }
  }

  lemma ActiveCountInsert(r: Round, rs: seq<Round>)
    ensures ActiveCount(Insert(r, rs)) == ActiveCount(rs) + (if r.isActive then 1 else 0)
  {
    var k := InsertPoint(r, rs);
    ActiveCountConcat(rs[..k] + [r], rs[k..]);
    ActiveCountConcat(rs[..k], [r]);
    ActiveCountConcat(rs[..k], rs[k..]);
    assert rs == rs[..k] + rs[k..];
    assert ActiveCount([r]) == (if r.isActive then 1 else 0);
  }

  /** One active round is the same thing as exactly one index being active. */
  lemma {:induction false} SingleActiveIndex(rs: seq<Round>)
    requires ActiveCount(rs) == 1
    ensures FirstActive(rs).Some? && ActiveOnlyAt(rs, FirstActive(rs).value)
    decreases |rs|
  {
    if rs[0].isActive {
      NoActiveWhenCountZero(rs[1..]);
      assert forall j :: 1 <= j < |rs| ==> rs[j] == rs[1..][j - 1];
    } else {
      SingleActiveIndex(rs[1..]);
      assert forall j :: 1 <= j < |rs| ==> rs[j] == rs[1..][j - 1];
    }
  }

  lemma {:induction false} NoActiveWhenCountZero(rs: seq<Round>)
    requires ActiveCount(rs) == 0
    ensures forall j :: 0 <= j < |rs| ==> !rs[j].isActive
    decreases |rs|
  {
    if |rs| > 0 {
      NoActiveWhenCountZero(rs[1..]);
      assert forall j :: 1 <= j < |rs| ==> rs[j] == rs[1..][j - 1];
    }
  }

  lemma {:induction false} ActiveOnlyAtCount(rs: seq<Round>, i: nat)
    requires ActiveOnlyAt(rs, i)
    ensures ActiveCount(rs) == 1
  {
    assert rs == rs[..i] + [rs[i]] + rs[i + 1..];
    ActiveCountConcat(rs[..i] + [rs[i]], rs[i + 1..]);
    ActiveCountConcat(rs[..i], [rs[i]]);
    NoneActiveCount(rs[..i]);
    NoneActiveCount(rs[i + 1..]);
  }

  lemma {:induction false} NoneActiveCount(rs: seq<Round>)
    requires forall j :: 0 <= j < |rs| ==> !rs[j].isActive
    ensures ActiveCount(rs) == 0
    decreases |rs|
  {
    if |rs| > 0 {
      NoneActiveCount(rs[1..]);
    }
  }

  // ---------------------------------------------------------------------
  // What a round carries apart from its parent and its flag
  // ---------------------------------------------------------------------

  datatype RoundContent = RoundContent(id: RoundId, description: string, deadline: Day, activatedAt: Option<Instant>)

  function Content(r: Round): RoundContent {
    RoundContent(r.id, r.description, r.deadline, r.activatedAt)
  }

  function Contents(rs: seq<Round>): (cs: seq<RoundContent>)
    ensures |cs| == |rs|
    ensures forall i :: 0 <= i < |rs| ==> cs[i] == Content(rs[i])
  {
    seq(|rs|, i requires 0 <= i < |rs| => Content(rs[i]))
  }

  lemma ContentsConcat(a: seq<Round>, b: seq<Round>)
    ensures Contents(a + b) == Contents(a) + Contents(b)
  {
  }

  lemma ContentsInsert(r: Round, rs: seq<Round>)
    ensures multiset(Contents(Insert(r, rs))) == multiset{Content(r)} + multiset(Contents(rs))
  {
    var k := InsertPoint(r, rs);
    var a, b := rs[..k], rs[k..];
    assert Insert(r, rs) == a + [r] + b;
    assert rs == a + b;
    calc {
      multiset(Contents(a + [r] + b));
      == { ContentsConcat(a + [r], b); ContentsConcat(a, [r]); }
      multiset(Contents(a) + [Content(r)] + Contents(b));
      == multiset(Contents(a)) + multiset{Content(r)} + multiset(Contents(b));
      == { ContentsConcat(a, b); }
      multiset{Content(r)} + multiset(Contents(rs));
    }
  }

  lemma ContentsCons(rs: seq<Round>)
    requires |rs| > 0
    ensures multiset(Contents(rs)) == multiset{Content(rs[0])} + multiset(Contents(rs[1..]))
  {
    assert Contents(rs) == [Content(rs[0])] + Contents(rs[1..]);
  }

  /** Sorting permutes the rounds' contents. */
  lemma {:induction false} SortPermutesContents(rs: seq<Round>)
    ensures multiset(Contents(SortByDeadline(rs))) == multiset(Contents(rs))
    decreases |rs|
  {
    if |rs| > 0 {
      var tail := SortByDeadline(rs[1..]);
      assert SortByDeadline(rs) == Insert(rs[0], tail);
      calc {
        multiset(Contents(SortByDeadline(rs)));
        == { ContentsInsert(rs[0], tail); }
        multiset{Content(rs[0])} + multiset(Contents(tail));
        == { SortPermutesContents(rs[1..]); }
        multiset{Content(rs[0])} + multiset(Contents(rs[1..]));
        == { ContentsCons(rs); }
        multiset(Contents(rs));
      }
    }
  }
}
