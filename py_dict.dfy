/** The part of CPython's `dict` (3.8 and later, combined tables) that
    decides what a loop over `d.items()` sees while the loop body stores
    and deletes keys of `d`.

    The entries live in an array in insertion order. Storing a new key
    fills a fresh slot at the end, after a resize when the table is full;
    a resize keeps only the live slots, in order. Storing an existing key
    overwrites its slot. Deleting a key leaves a dummy in its slot.

    An items iterator remembers the size it started with, the next slot to
    look at and how many items it may still return. Each `next` first
    raises `RuntimeError` if the size changed; otherwise it looks for the
    next live slot, stops if there is none, and raises `RuntimeError` if
    there is one but it has already returned as many items as the
    dictionary had. */
module PyDict {
  import opened Common

  /** A slot of the entry array: a live key with its value, or the dummy
      that a deletion leaves until the next resize. */
  type Slot = Option<(string, real)>

  /** `len(d)`: the number of live slots. */
  function Size(s: seq<Slot>): (n: nat)
    ensures n <= |s|
  {
    if |s| == 0 then 0 else (if s[0].Some? then 1 else 0) + Size(s[1..])
  }

  predicate AllLive(s: seq<Slot>)
  {
    forall i | 0 <= i < |s| :: s[i].Some?
  }

  /** No key is live in two slots. */
  predicate DistinctLive(s: seq<Slot>)
  {
    forall i, j | 0 <= i < j < |s| && s[i].Some? && s[j].Some? :: s[i].value.0 != s[j].value.0
  }

  /** The slot that holds `k`, or `|s|` when `k` is not a key. */
  function IndexOf(s: seq<Slot>, k: string): (i: nat)
    ensures i <= |s|
    ensures i < |s| ==> s[i].Some? && s[i].value.0 == k
    ensures forall j | 0 <= j < i :: !(s[j].Some? && s[j].value.0 == k)
  {
    if |s| == 0 then 0
    else if s[0].Some? && s[0].value.0 == k then 0
    else 1 + IndexOf(s[1..], k)
  }

  /** The live slots in order: the entry array after a resize. */
  function Compact(s: seq<Slot>): (c: seq<Slot>)
    ensures |c| == Size(s) && AllLive(c)
  {
    if |s| == 0 then [] else (if s[0].Some? then [s[0]] else []) + Compact(s[1..])
  }

  /** `d[k] = v`: an existing key keeps its slot and takes the new value;
      a new key goes into a fresh slot at the end, after a resize when the
      table is full (`resize`). */
  function SetItem(s: seq<Slot>, k: string, v: real, resize: bool): seq<Slot>
  {
    var i := IndexOf(s, k);
    if i < |s| then s[i := Some((k, v))]
    else (if resize then Compact(s) else s) + [Some((k, v))]
  }

  /** `del d[k]` of a key that is present: its slot becomes a dummy. */
  function DelItem(s: seq<Slot>, k: string): seq<Slot>
    requires IndexOf(s, k) < |s|
  {
    s[IndexOf(s, k) := None]
  }

  /** The dictionary as a map: each live slot's key with its value. */
  function Contents(s: seq<Slot>): map<string, real>
  {
    if |s| == 0 then map[]
    else
      var c := Contents(s[..|s| - 1]);
      match s[|s| - 1]
      case None => c
      case Some((k, v)) => c[k := v]
  }

  /** The state of an items iterator: the size it expects (`di_used`),
      the next slot to look at (`di_pos`) and how many items it may still
      return (`len`). */
  datatype Iterator = Iterator(used: nat, pos: nat, left: nat)

  /** `iter(d.items())`. */
  function Iter(s: seq<Slot>): Iterator
  {
    Iterator(Size(s), 0, Size(s))
  }

  /** The first live slot at or after `p`; a result of at least `|s|`
      means there is none. */
  function FirstLive(s: seq<Slot>, p: nat): (i: nat)
    ensures p <= i
    ensures i < |s| ==> s[i].Some?
    ensures forall j | p <= j < i && j < |s| :: s[j].None?
    decreases |s| - p
  {
    if p >= |s| || s[p].Some? then p else FirstLive(s, p + 1)
  }

  /** What one `next` on the iterator does. */
  datatype Next =
    | Yield(index: nat, after: Iterator)  // returns the item in that slot
    | Exhausted                           // the loop ends normally
    | SizeChanged                         // "dictionary changed size during iteration"
    | KeysChanged                         // "dictionary keys changed during iteration"

  function Step(s: seq<Slot>, it: Iterator): (r: Next)
    ensures r.Yield? ==> r.index < |s| && s[r.index].Some? && it.left > 0 &&
                         r.after == Iterator(it.used, r.index + 1, it.left - 1)
  {
    if Size(s) != it.used then SizeChanged
    else
      var i := FirstLive(s, it.pos);
      if i >= |s| then Exhausted
      else if it.left == 0 then KeysChanged
      else Yield(i, Iterator(it.used, i + 1, it.left - 1))
  }

  // ---------------------------------------------------------------------
  // Sizes, positions and resizes

  /** A suffix of live slots stays live without its first slot. */
  lemma LiveTail(s: seq<Slot>, p: nat)
    requires p < |s| && AllLive(s[p..])
    ensures AllLive(s[p + 1..])
  {
    var tail, live := s[p + 1..], s[p..];
    forall j | 0 <= j < |tail| ensures tail[j].Some? {
      assert tail[j] == live[j + 1];
    }
  }

  lemma {:induction false} SizeAppend(a: seq<Slot>, b: seq<Slot>)
    ensures Size(a + b) == Size(a) + Size(b)
    decreases |a|
  {
    if |a| > 0 {
      assert (a + b)[0] == a[0] && (a + b)[1..] == a[1..] + b;
      SizeAppend(a[1..], b);
    } else {
      assert a + b == b;
    }
  }

  lemma {:induction false} AllLiveSize(s: seq<Slot>)
    requires AllLive(s)
    ensures Size(s) == |s|
    decreases |s|
  {
    if |s| > 0 {
      AllLiveSize(s[1..]);
    }
  }

  /** Overwriting one slot changes the size by what the slot gains or
      loses. */
  lemma SizeUpdate(s: seq<Slot>, i: nat, x: Slot)
    requires i < |s|
    ensures Size(s[i := x]) == Size(s) - (if s[i].Some? then 1 else 0) + (if x.Some? then 1 else 0)
  {
    assert s == s[..i] + ([s[i]] + s[i + 1..]);
    assert s[i := x] == s[..i] + ([x] + s[i + 1..]);
    SizeAppend(s[..i], [s[i]] + s[i + 1..]);
    SizeAppend([s[i]], s[i + 1..]);
    SizeAppend(s[..i], [x] + s[i + 1..]);
    SizeAppend([x], s[i + 1..]);
  }

  /** In a dictionary a live key is found in its own slot. */
  lemma IndexOfDistinct(s: seq<Slot>, i: nat)
    requires DistinctLive(s)
    requires i < |s| && s[i].Some?
    ensures IndexOf(s, s[i].value.0) == i
  {
  }

  /** A resize moves every key forward to its rank among the live slots:
      present keys stay present, absent ones stay absent. */
  lemma {:induction false} CompactIndex(s: seq<Slot>, k: string)
    ensures IndexOf(Compact(s), k) <= IndexOf(s, k)
    ensures IndexOf(Compact(s), k) < |Compact(s)| <==> IndexOf(s, k) < |s|
    decreases |s|
  {
    if |s| > 0 {
      CompactIndex(s[1..], k);
      var c := Compact(s[1..]);
      if s[0].Some? {
        assert Compact(s) == [s[0]] + c;
        assert Compact(s)[0] == s[0];
        if s[0].value.0 != k {
          assert Compact(s)[1..] == c;
          assert IndexOf(Compact(s), k) == 1 + IndexOf(c, k);
          assert IndexOf(s, k) == 1 + IndexOf(s[1..], k);
        }
      } else {
        assert Compact(s) == c;
        assert IndexOf(s, k) == 1 + IndexOf(s[1..], k);
      }
    }
  }

  lemma {:induction false} CompactDistinct(s: seq<Slot>)
    requires DistinctLive(s)
    ensures DistinctLive(Compact(s))
    decreases |s|
  {
    if |s| > 0 {
      CompactDistinct(s[1..]);
      if s[0].Some? {
        var c, k := Compact(s[1..]), s[0].value.0;
        assert IndexOf(s[1..], k) == |s[1..]| by {
          forall j | 0 <= j < |s[1..]| ensures !(s[1..][j].Some? && s[1..][j].value.0 == k) {
            assert s[1..][j] == s[j + 1];
          }
        }
        CompactIndex(s[1..], k);
        assert Compact(s) == [s[0]] + c;
      }
    }
  }

  /** Storing the blank-free key of the item just returned and deleting
      the item's own key, when the two differ. Storing over an existing
      key shrinks the dictionary. Storing a new key keeps its size, but
      leaves one more slot than keys, all live from the iterator on. The
      deleted slot is behind the iterator, so the slots it has still to
      visit stay live. This holds whether or not the store resizes. */
  lemma RewriteStep(s: seq<Slot>, p: nat, left: nat, n: nat, key: string, e: string, v: real, resize: bool)
    requires DistinctLive(s) && Size(s) == n
    requires 1 <= p <= |s| && p + left <= n && AllLive(s[p..])
    requires s[p - 1] == Some((key, v)) && e != key
    ensures IndexOf(SetItem(s, e, v, resize), key) < p <= |SetItem(s, e, v, resize)|
    ensures DistinctLive(DelItem(SetItem(s, e, v, resize), key))
    ensures var t := DelItem(SetItem(s, e, v, resize), key);
            Size(t) == n ==> |t| > n && p <= |t| && AllLive(t[p..])
  {
    var x := IndexOf(s, e);
    IndexOfDistinct(s, p - 1);
    if x < |s| {
      StoreExisting(s, p, key, e, v, x);
    } else if !resize {
      StoreNew(s, p, left, n, key, e, v);
    } else {
      StoreNewResized(s, p, left, n, key, e, v);
    }
  }

  lemma StoreExisting(s: seq<Slot>, p: nat, key: string, e: string, v: real, x: nat)
    requires DistinctLive(s)
    requires 1 <= p <= |s|
    requires s[p - 1] == Some((key, v)) && e != key
    requires x == IndexOf(s, e) && x < |s|
    ensures IndexOf(SetItem(s, e, v, false), key) == p - 1
    ensures SetItem(s, e, v, true) == SetItem(s, e, v, false)
    ensures DistinctLive(DelItem(SetItem(s, e, v, false), key))
    ensures Size(DelItem(SetItem(s, e, v, false), key)) == Size(s) - 1
  {
    var s1 := s[x := Some((e, v))];
    assert DistinctLive(s1);
    IndexOfDistinct(s1, p - 1);
    SizeUpdate(s, x, Some((e, v)));
    SizeUpdate(s1, p - 1, None);
  }

  lemma StoreNew(s: seq<Slot>, p: nat, left: nat, n: nat, key: string, e: string, v: real)
    requires DistinctLive(s) && Size(s) == n
    requires 1 <= p <= |s| && AllLive(s[p..])
    requires s[p - 1] == Some((key, v)) && e != key
    requires IndexOf(s, e) == |s|
    ensures IndexOf(SetItem(s, e, v, false), key) == p - 1
    ensures var t := DelItem(SetItem(s, e, v, false), key);
            DistinctLive(t) && Size(t) == n && |t| > n && AllLive(t[p..])
  {
    var s1 := s + [Some((e, v))];
    assert DistinctLive(s1);
    IndexOfDistinct(s1, p - 1);
    var t := s1[p - 1 := None];
    SizeAppend(s, [Some((e, v))]);
    SizeUpdate(s1, p - 1, None);
    assert AllLive(t[p..]) by {
      forall j | 0 <= j < |t[p..]| ensures t[p..][j].Some? {
        if p + j < |s| {
          assert t[p..][j] == s[p..][j];
        }
      }
    }
  }

  lemma StoreNewResized(s: seq<Slot>, p: nat, left: nat, n: nat, key: string, e: string, v: real)
    requires DistinctLive(s) && Size(s) == n
    requires 1 <= p <= |s| && p + left <= n
    requires s[p - 1] == Some((key, v)) && e != key
    requires IndexOf(s, e) == |s|
    ensures IndexOf(SetItem(s, e, v, true), key) < p
    ensures var t := DelItem(SetItem(s, e, v, true), key);
            DistinctLive(t) && Size(t) == n && |t| == n + 1 && AllLive(t[p..])
  {
    var c := Compact(s);
    CompactDistinct(s);
    CompactIndex(s, e);
    CompactIndex(s, key);
    var s1 := c + [Some((e, v))];
    assert DistinctLive(s1);
    var i := IndexOf(c, key);
    assert s1[i] == c[i];
    IndexOfDistinct(s1, i);
    SizeAppend(c, [Some((e, v))]);
    AllLiveSize(c);
    SizeUpdate(s1, i, None);
  }
}
