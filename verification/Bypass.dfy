/** bypassSessions: a bounded table of session timestamps, pruned from the oldest entry on. */
module Bypass {
  import opened ByteText

  type Table = map<Bytes, int>

  const DEFAULT_MAX := 1024

  /** All sessions of the table, oldest first; sessions seen at the same time may come in any order. */
  ghost predicate ByAge(entries: seq<Bytes>, seen: Table) {
    if entries == [] then seen == map[]
    else
      && entries[0] in seen
      && (forall x | x in seen :: seen[entries[0]] <= seen[x])
      && ByAge(entries[1..], seen - {entries[0]})
  }

  /** The table without the first n of the listed sessions. */
  function Without(seen: Table, entries: seq<Bytes>, n: nat): Table {
    if n == 0 || entries == [] then seen else Without(seen - {entries[0]}, entries[1..], n - 1)
  }

  function Excess(seen: Table, target: nat): nat {
    if |seen| > target then |seen| - target else 0
  }

  /** kept is what may be left of a table when it is pruned to at most target sessions. */
  ghost predicate Pruned(seen: Table, target: nat, kept: Table) {
    exists entries :: ByAge(entries, seen) && kept == Without(seen, entries, Excess(seen, target))
  }

  lemma LessOne(seen: Table, id: Bytes)
    requires id in seen
    ensures |seen - {id}| == |seen| - 1
  {
    assert (seen - {id}).Keys == seen.Keys - {id};
  }

  lemma {:induction false} EntriesCount(entries: seq<Bytes>, seen: Table)
    requires ByAge(entries, seen)
    ensures |entries| == |seen|
  {
    if entries != [] {
      LessOne(seen, entries[0]);
      EntriesCount(entries[1..], seen - {entries[0]});
    }
  }

  lemma {:induction false} WithoutIsPart(seen: Table, entries: seq<Bytes>, n: nat)
    requires ByAge(entries, seen) && n <= |seen|
    ensures var kept := Without(seen, entries, n);
            && |kept| == |seen| - n
            && (forall x | x in kept :: x in seen && kept[x] == seen[x])
            && (forall x, y | x in seen && x !in kept && y in kept :: seen[x] <= seen[y])
    decreases |entries|
  {
    EntriesCount(entries, seen);
    if n > 0 {
      LessOne(seen, entries[0]);
      WithoutIsPart(seen - {entries[0]}, entries[1..], n - 1);
    }
  }

  /**
   * With ties or without: pruning leaves at most target sessions, unchanged, and no session that is
   * evicted was seen later than a session that is kept.
   */
  lemma EvictedIsOldest(seen: Table, target: nat, kept: Table)
    requires Pruned(seen, target, kept)
    ensures |kept| == if |seen| > target then target else |seen|
    ensures forall x | x in kept :: x in seen && kept[x] == seen[x]
    ensures forall x, y | x in seen && x !in kept && y in kept :: seen[x] <= seen[y]
  {
    var entries :| ByAge(entries, seen) && kept == Without(seen, entries, Excess(seen, target));
    WithoutIsPart(seen, entries, Excess(seen, target));
  }

  lemma {:induction false} OldestExists(seen: Table)
    requires seen != map[]
    ensures exists id :: id in seen && forall x | x in seen :: seen[id] <= seen[x]
    decreases |seen|
  {
    var id :| id in seen;
    var rest := seen - {id};
    LessOne(seen, id);
    if rest == map[] {
      assert forall x | x in seen :: x == id || x in rest;
      assert seen[id] <= seen[id];
    } else {
      OldestExists(rest);
      var other :| other in rest && forall x | x in rest :: rest[other] <= rest[x];
      var best := if seen[id] <= seen[other] then id else other;
      assert forall x | x in seen :: x == id || x in rest;
      assert best in seen && forall x | x in seen :: seen[best] <= seen[x];
    }
  }

  lemma {:induction false} AgesCanBeListed(seen: Table) returns (entries: seq<Bytes>)
    ensures ByAge(entries, seen)
    decreases |seen|
  {
    entries := [];
    if seen != map[] {
      OldestExists(seen);
      var id :| id in seen && forall x | x in seen :: seen[id] <= seen[x];
      LessOne(seen, id);
      var rest := AgesCanBeListed(seen - {id});
      entries := [id] + rest;
    }
  }

  /** sort.Slice by time is not stable: any listing from the oldest on may come out. */
  method OldestFirst(seen: Table) returns (entries: seq<Bytes>)
    ensures ByAge(entries, seen)
    decreases |seen|
  {
    if seen == map[] {
      return [];
    }
    OldestExists(seen);
    var id :| id in seen && forall x | x in seen :: seen[id] <= seen[x];
    LessOne(seen, id);
    var rest := OldestFirst(seen - {id});
    return [id] + rest;
  }

  class BypassSessions {
    const marker: Bytes
    const max: int
    var seen: Table

    ghost predicate Valid()
      reads this
    {
      marker != [] ==> max > 0 && |seen| <= max
    }

    /** marker has been trimmed; without a marker the table is never used. */
    constructor (marker: Bytes, max: int)
      ensures Valid() && this.marker == marker && seen == map[]
      ensures marker != [] ==> this.max == if max <= 0 then 1024 else max
    {
      var limit := if max <= 0 then DEFAULT_MAX else max;
      this.marker := marker;
      this.max := if marker == [] then 0 else limit;
      seen := map[];
    }

    method Mark(sessionID: Bytes, now: int)
      requires Valid()
      modifies this
      ensures Valid()
      ensures marker == [] || sessionID == [] ==> seen == old(seen)
      ensures marker != [] && sessionID != [] ==> Pruned(old(seen)[sessionID := now], max, seen)
    {
      if marker == [] || sessionID == [] {
        return;
      }
      seen := seen[sessionID := now];
      if |seen| > max {
        PruneLocked();
      } else {
        ghost var entries := AgesCanBeListed(seen);
        assert seen == Without(seen, entries, Excess(seen, max));
      }
    }

    method Has(sessionID: Bytes, now: int) returns (found: bool)
      requires Valid()
      modifies this
      ensures Valid()
      ensures found <==> marker != [] && sessionID != [] && sessionID in old(seen)
      ensures seen == if found then old(seen)[sessionID := now] else old(seen)
    {
      if marker == [] || sessionID == [] {
        return false;
      }
      if sessionID !in seen {
        return false;
      }
      assert seen[sessionID := now].Keys == seen.Keys;
      seen := seen[sessionID := now];
      return true;
    }

    method PruneLocked()
      requires max > 0
      modifies this
      ensures Pruned(old(seen), max, seen) && |seen| <= max
    {
      var entries := OldestFirst(seen);
      var target := max;
      if target <= 0 {
        target := DEFAULT_MAX;
      }
      ghost var all := entries;
      while |seen| > target && |entries| > 0
        invariant ByAge(entries, seen)
        invariant Without(seen, entries, Excess(seen, target)) == Without(old(seen), all, Excess(old(seen), target))
        decreases |entries|
      {
        LessOne(seen, entries[0]);
        seen := seen - {entries[0]};
        entries := entries[1..];
      }
      EntriesCount(entries, seen);
    }
  }

  // ---------- the recency list ----------

  function Remove(list: seq<Bytes>, id: Bytes): seq<Bytes> {
    if list == [] then [] else if list[0] == id then Remove(list[1..], id) else [list[0]] + Remove(list[1..], id)
  }

  function Trim(list: seq<Bytes>, max: nat): seq<Bytes> {
    if |list| <= max then list else Trim(list[1..], max)
  }

  /** The sessions of a recency list, oldest first, with id moved or added to the end, at most max of them. */
  function Touch(list: seq<Bytes>, id: Bytes, max: nat): seq<Bytes> {
    Trim(Remove(list, id) + [id], max)
  }

  /** The recency list after the sessions ids have been touched one after the other. */
  function Touched(ids: seq<Bytes>, max: nat): seq<Bytes> {
    if ids == [] then [] else Touch(Touched(ids[..|ids| - 1], max), ids[|ids| - 1], max)
  }

  /** The list is the table: its sessions, in the strict order of their timestamps. */
  ghost predicate Lists(list: seq<Bytes>, seen: Table) {
    if list == [] then seen == map[]
    else
      && list[0] in seen
      && (forall x | x in seen && x != list[0] :: seen[list[0]] < seen[x])
      && Lists(list[1..], seen - {list[0]})
  }

  lemma {:induction false} OneListing(entries: seq<Bytes>, list: seq<Bytes>, seen: Table)
    requires ByAge(entries, seen) && Lists(list, seen)
    ensures entries == list
  {
    if list != [] {
      assert entries != [];
      OneListing(entries[1..], list[1..], seen - {list[0]});
    }
  }

  lemma {:induction false} TrimLists(list: seq<Bytes>, seen: Table, max: nat)
    requires Lists(list, seen)
    ensures |list| == |seen| && Lists(Trim(list, max), Without(seen, list, Excess(seen, max)))
    decreases |list|
  {
    if list != [] {
      LessOne(seen, list[0]);
      TrimLists(list[1..], seen - {list[0]}, max);
    }
  }

  lemma {:induction false} RemoveLists(list: seq<Bytes>, seen: Table, id: Bytes)
    requires Lists(list, seen)
    ensures Lists(Remove(list, id), seen - {id})
  {
    if list != [] {
      var first, rest := list[0], list[1..];
      RemoveLists(rest, seen - {first}, id);
      if first == id {
        assert seen - {first} - {id} == seen - {id};
      } else {
        assert seen - {first} - {id} == seen - {id} - {first};
        assert ([first] + Remove(rest, id))[1..] == Remove(rest, id);
      }
    }
  }

  lemma {:induction false} AppendNewest(list: seq<Bytes>, seen: Table, id: Bytes, now: int)
    requires Lists(list, seen) && id !in seen && forall x | x in seen :: seen[x] < now
    ensures Lists(list + [id], seen[id := now])
  {
    var seen' := seen[id := now];
    if list == [] {
      assert seen' - {id} == map[];
    } else {
      AppendNewest(list[1..], seen - {list[0]}, id, now);
      assert (list + [id])[1..] == list[1..] + [id];
      assert seen' - {list[0]} == (seen - {list[0]})[id := now];
    }
  }

  lemma MovedLists(list: seq<Bytes>, seen: Table, id: Bytes, now: int)
    requires Lists(list, seen) && forall x | x in seen :: seen[x] < now
    ensures Lists(Remove(list, id) + [id], seen[id := now])
  {
    RemoveLists(list, seen, id);
    AppendNewest(Remove(list, id), seen - {id}, id, now);
    assert (seen - {id})[id := now] == seen[id := now];
  }

  /** With a strictly increasing clock, marking a session does to the table what Touch does to the list. */
  lemma MarkRefinesTouch(list: seq<Bytes>, seen: Table, id: Bytes, now: int, max: nat, seen': Table)
    requires Lists(list, seen) && forall x | x in seen :: seen[x] < now
    requires Pruned(seen[id := now], max, seen')
    ensures Lists(Touch(list, id, max), seen')
  {
    var marked := seen[id := now];
    MovedLists(list, seen, id, now);
    var entries :| ByAge(entries, marked) && seen' == Without(marked, entries, Excess(marked, max));
    OneListing(entries, Remove(list, id) + [id], marked);
    TrimLists(entries, marked, max);
  }

  /** Finding a session touches it. */
  lemma HasRefinesTouch(list: seq<Bytes>, seen: Table, id: Bytes, now: int, max: nat)
    requires Lists(list, seen) && id in seen && |seen| <= max && forall x | x in seen :: seen[x] < now
    ensures Lists(Touch(list, id, max), seen[id := now])
  {
    MovedLists(list, seen, id, now);
    assert seen[id := now].Keys == seen.Keys;
    TrimLists(Remove(list, id) + [id], seen[id := now], max);
  }

  // ---------- runs ----------

  datatype Op = Mark(id: Bytes, now: int) | Has(id: Bytes, now: int)

  /** One operation, with whatever order pruning happens to use. */
  ghost predicate Step(max: nat, before: Table, op: Op, after: Table) {
    match op
    case Mark(id, now) => Pruned(before[id := now], max, after)
    case Has(id, now) => after == if id in before then before[id := now] else before
  }

  /** The tables of a run that starts empty. */
  ghost predicate Run(max: nat, ops: seq<Op>, tables: seq<Table>) {
    && |tables| == |ops| + 1 && tables[0] == map[]
    && forall i | 0 <= i < |ops| :: Step(max, tables[i], ops[i], tables[i + 1])
  }

  ghost predicate ClockIncreases(ops: seq<Op>) {
    forall i, j | 0 <= i < j < |ops| :: ops[i].now < ops[j].now
  }

  /** The sessions touched in the first n operations: marked, or asked for and found. */
  ghost function TouchesOf(ops: seq<Op>, tables: seq<Table>, n: nat): seq<Bytes>
    requires n <= |ops| < |tables|
  {
    if n == 0 then []
    else if ops[n - 1].Mark? || ops[n - 1].id in tables[n - 1] then TouchesOf(ops, tables, n - 1) + [ops[n - 1].id]
    else TouchesOf(ops, tables, n - 1)
  }

  ghost predicate Older(seen: Table, now: int) {
    forall x | x in seen :: seen[x] < now
  }

  lemma StepRefines(list: seq<Bytes>, max: nat, before: Table, op: Op, after: Table, now: int)
    requires Lists(list, before) && |before| <= max && Step(max, before, op, after)
    requires Older(before, op.now) && op.now < now
    ensures Lists(if op.Mark? || op.id in before then Touch(list, op.id, max) else list, after)
    ensures |after| <= max && Older(after, now)
  {
    match op
    case Mark(id, t) =>
      MarkRefinesTouch(list, before, id, t, max, after);
      EvictedIsOldest(before[id := t], max, after);
    case Has(id, t) =>
      if id in before {
        HasRefinesTouch(list, before, id, t, max);
        assert after.Keys == before.Keys;
      }
  }

  /** At every moment of every run the table is the recency list of the sessions touched so far. */
  lemma {:induction false} TableIsRecencyList(max: nat, ops: seq<Op>, tables: seq<Table>, n: nat, now: int)
    requires Run(max, ops, tables) && ClockIncreases(ops) && n <= |ops|
    requires n > 0 ==> ops[n - 1].now < now
    ensures Lists(Touched(TouchesOf(ops, tables, n), max), tables[n])
    ensures |tables[n]| <= max && Older(tables[n], now)
    decreases n
  {
    if n > 0 {
      var op := ops[n - 1];
      TableIsRecencyList(max, ops, tables, n - 1, op.now);
      var ids := TouchesOf(ops, tables, n - 1);
      assert Step(max, tables[n - 1], op, tables[n - 1 + 1]);
      StepRefines(Touched(ids, max), max, tables[n - 1], op, tables[n], now);
      assert (ids + [op.id])[..|ids|] == ids;
    }
  }

  // ---------- how long a session is remembered ----------

  function Distinct(ids: seq<Bytes>): set<Bytes> {
    set x | x in ids
  }

  lemma UnrepeatedHead(list: seq<Bytes>)
    requires list != []
    ensures Unrepeated(list) <==> list[0] !in list[1..] && Unrepeated(list[1..])
  {
    assert list == [list[0]] + list[1..];
    if list[0] !in list[1..] && Unrepeated(list[1..]) {
      forall i, j | 0 <= i < j < |list| ensures list[i] != list[j] {
        assert list[j] == list[1..][j - 1];
        if i > 0 { assert list[i] == list[1..][i - 1]; }
      }
    }
  }

  lemma {:induction false} RemoveFacts(list: seq<Bytes>, id: Bytes)
    ensures forall x :: x in Remove(list, id) <==> x in list && x != id
    ensures Unrepeated(list) ==> Unrepeated(Remove(list, id))
    ensures Unrepeated(list) ==> |Remove(list, id)| == |list| - if id in list then 1 else 0
  {
    if list != [] {
      RemoveFacts(list[1..], id);
      UnrepeatedHead(list);
      if list[0] != id {
        var kept := [list[0]] + Remove(list[1..], id);
        assert kept[1..] == Remove(list[1..], id);
        UnrepeatedHead(kept);
      }
    }
  }

  lemma {:induction false} RemoveSplits(a: seq<Bytes>, b: seq<Bytes>, id: Bytes)
    ensures Remove(a + b, id) == Remove(a, id) + Remove(b, id)
  {
    if a == [] {
      assert a + b == b;
    } else {
      assert (a + b)[1..] == a[1..] + b;
      RemoveSplits(a[1..], b, id);
    }
  }

  lemma AppendUnrepeated(list: seq<Bytes>, id: Bytes)
    requires Unrepeated(list) && id !in list
    ensures Unrepeated(list + [id])
  {
  }

  lemma {:induction false} TrimIsSuffix(a: seq<Bytes>, b: seq<Bytes>, max: nat) returns (a': seq<Bytes>)
    requires |b| <= max
    ensures Trim(a + b, max) == a' + b
    decreases |a|
  {
    if a == [] || |a + b| <= max {
      a' := a;
      assert a == [] ==> a + b == b;
    } else {
      assert (a + b)[1..] == a[1..] + b;
      a' := TrimIsSuffix(a[1..], b, max);
    }
  }

  lemma {:induction false} TrimDrops(list: seq<Bytes>, max: nat)
    ensures forall x | x in Trim(list, max) :: x in list
    ensures |list| > max ==> Trim(list, max) == list[|list| - max..]
    decreases |list|
  {
    if |list| > max { TrimDrops(list[1..], max); }
  }

  /** The list ends in id followed by post, the distinct sessions touched since. */
  ghost predicate Behind(list: seq<Bytes>, id: Bytes, post: seq<Bytes>, ids: seq<Bytes>) {
    && |list| > |post| && list[|list| - |post| - 1..] == [id] + post
    && Unrepeated(post) && Distinct(post) == Distinct(ids) && |post| == |Distinct(ids)|
  }

  /** The distinct sessions of ids, when x is touched as well. */
  lemma DistinctStep(post: seq<Bytes>, ids: seq<Bytes>, x: Bytes)
    requires Unrepeated(post) && Distinct(post) == Distinct(ids) && |post| == |Distinct(ids)|
    ensures var post' := Remove(post, x) + [x];
            && Unrepeated(post') && Distinct(post') == Distinct(ids + [x]) && |post'| == |Distinct(ids + [x])|
  {
    RemoveFacts(post, x);
    AppendUnrepeated(Remove(post, x), x);
    assert Distinct(ids + [x]) == Distinct(ids) + {x};
    assert x in post <==> x in Distinct(post);
    assert forall y :: y in Distinct(Remove(post, x) + [x]) <==> y in Remove(post, x) || y == x;
    assert forall y :: y in Distinct(post) <==> y in post;
    if x in post { assert Distinct(ids) + {x} == Distinct(ids); }
  }

  lemma MovedBehind(list: seq<Bytes>, id: Bytes, post: seq<Bytes>, x: Bytes) returns (pre: seq<Bytes>)
    requires |list| > |post| && list[|list| - |post| - 1..] == [id] + post && x != id
    ensures Remove(list, x) + [x] == pre + ([id] + (Remove(post, x) + [x]))
  {
    var front := list[..|list| - |post| - 1];
    assert list == front + ([id] + post);
    RemoveSplits(front, [id] + post, x);
    RemoveSplits([id], post, x);
    assert Remove([id], x) == [id] + Remove([], x) == [id];
    pre := Remove(front, x);
  }

  /** One more session is touched behind id. */
  lemma TouchBehind(list: seq<Bytes>, id: Bytes, post: seq<Bytes>, ids: seq<Bytes>, x: Bytes, max: nat)
    returns (post': seq<Bytes>)
    requires Behind(list, id, post, ids) && x != id && id !in ids
    ensures |Distinct(ids + [x])| < max ==> Behind(Touch(list, x, max), id, post', ids + [x])
    ensures |Distinct(ids + [x])| == max ==> id !in Touch(list, x, max)
  {
    post' := Remove(post, x) + [x];
    DistinctStep(post, ids, x);
    var pre := MovedBehind(list, id, post, x);
    if |post'| < max {
      var front := TrimIsSuffix(pre, [id] + post', max);
    } else if |post'| == max {
      var moved := pre + ([id] + post');
      TrimDrops(moved, max);
      assert moved[|moved| - max..] == post';
      assert id in post' ==> id in Distinct(post');
    }
  }

  lemma {:induction false} RememberedWhile(before: seq<Bytes>, id: Bytes, after: seq<Bytes>, max: nat)
    returns (post: seq<Bytes>)
    requires max > 0 && id !in after
    ensures |Distinct(after)| < max ==> Behind(Touched(before + [id] + after, max), id, post, after)
    ensures |Distinct(after)| >= max ==> id !in Touched(before + [id] + after, max)
    decreases |after|
  {
    var ids := before + [id] + after;
    if after == [] {
      post := [];
      assert ids == before + [id] && ids[..|ids| - 1] == before;
      var front := TrimIsSuffix(Remove(Touched(before, max), id), [id], max);
    } else {
      var x, some := after[|after| - 1], after[..|after| - 1];
      var list := Touched(before + [id] + some, max);
      assert ids[..|ids| - 1] == before + [id] + some && after == some + [x];
      assert Touched(ids, max) == Touch(list, x, max);
      post := RememberedWhile(before, id, some, max);
      assert Distinct(after) == Distinct(some) + {x};
      if |Distinct(some)| < max {
        post := TouchBehind(list, id, post, some, x, max);
      } else {
        RemoveFacts(list, x);
        TrimDrops(Remove(list, x) + [x], max);
        assert Distinct(some) <= Distinct(after);
        SubsetSize(Distinct(some), Distinct(after));
      }
    }
  }

  lemma {:induction false} SubsetSize<T>(a: set<T>, b: set<T>)
    requires a <= b
    ensures |a| <= |b|
  {
    assert b == a + (b - a);
  }

  /**
   * A session touched last at some moment is still in the recency list exactly as long as fewer than
   * max distinct other sessions have been touched since.
   */
  lemma RememberedExactly(before: seq<Bytes>, id: Bytes, after: seq<Bytes>, max: nat)
    requires max > 0 && id !in after
    ensures id in Touched(before + [id] + after, max) <==> |Distinct(after)| < max
  {
    var list := Touched(before + [id] + after, max);
    var post := RememberedWhile(before, id, after, max);
    if |Distinct(after)| < max {
      assert id == list[|list| - |post| - 1..][0] == list[|list| - |post| - 1];
    }
  }

  lemma {:induction false} ListedIsSeen(list: seq<Bytes>, seen: Table)
    requires Lists(list, seen)
    ensures Distinct(list) == seen.Keys
  {
    if list != [] {
      ListedIsSeen(list[1..], seen - {list[0]});
      assert Distinct(list) == {list[0]} + Distinct(list[1..]);
    }
  }

  /**
   * The table answers for a session, at every moment of every run with an increasing clock, exactly
   * when fewer than max distinct other sessions have been touched since the session itself last was.
   */
  lemma EvictedExactly(max: nat, ops: seq<Op>, tables: seq<Table>, before: seq<Bytes>, id: Bytes, after: seq<Bytes>)
    requires max > 0 && Run(max, ops, tables) && ClockIncreases(ops)
    requires TouchesOf(ops, tables, |ops|) == before + [id] + after && id !in after
    ensures id in tables[|ops|] <==> |Distinct(after)| < max
  {
    var now := if ops == [] then 0 else ops[|ops| - 1].now + 1;
    TableIsRecencyList(max, ops, tables, |ops|, now);
    var list := Touched(before + [id] + after, max);
    ListedIsSeen(list, tables[|ops|]);
    RememberedExactly(before, id, after, max);
    assert id in list <==> id in Distinct(list);
  }
}
