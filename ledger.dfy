/**
 * The reward stock: the corpus text and the list of corpus indices already
 * handed out (`used`). A message is available when its index is not in
 * `used`; a reservation hands out the earliest available messages and
 * appends their indices to `used`, so between two resets no index is issued
 * twice.
 */
module Stock {
  import opened Wrappers
  import opened Corpus

  /** One element of `available`: a corpus index and the message at that index. */
  type Entry = (int, string)

  /** The indices of a list of entries, in order. */
  function Indices(es: seq<Entry>): seq<int> {
    seq(|es|, k requires 0 <= k < |es| => es[k].0)
  }

  /** `[msg for _, msg in es]`. */
  function Texts(es: seq<Entry>): seq<string> {
    seq(|es|, k requires 0 <= k < |es| => es[k].1)
  }

  /** No index occurs twice. */
  predicate NoDup(s: seq<int>) {
    forall i, j :: 0 <= i < j < |s| ==> s[i] != s[j]
  }

  /** Every index is a position of a corpus of `n` messages. */
  predicate InRange(s: seq<int>, n: int) {
    forall i :: 0 <= i < |s| ==> 0 <= s[i] < n
  }

  /** The entries' indices strictly increase. */
  predicate Ascending(es: seq<Entry>) {
    forall j, k :: 0 <= j < k < |es| ==> es[j].0 < es[k].0
  }

  /** The pairs `(i, msgs[i])` with `i < n` and `i` not in `used`, in index order. */
  function AvailableUpTo(msgs: seq<string>, used: seq<int>, n: nat): seq<Entry>
    requires n <= |msgs|
  {
    if n == 0 then []
    else AvailableUpTo(msgs, used, n - 1) + (if n - 1 in used then [] else [(n - 1, msgs[n - 1])])
  }

  /**
   * The `available` list of `get_available_messages`: each entry pairs a
   * corpus index missing from `used` with the message at that index, in
   * ascending index order.
   */
  function Available(msgs: seq<string>, used: seq<int>): (r: seq<Entry>)
    ensures Ascending(r)
    ensures forall k :: 0 <= k < |r| ==> 0 <= r[k].0 < |msgs| && r[k].0 !in used && r[k].1 == msgs[r[k].0]
  {
    AvailableUpToSpec(msgs, used, |msgs|);
    AvailableUpTo(msgs, used, |msgs|)
  }

  lemma {:induction false} AvailableUpToSpec(msgs: seq<string>, used: seq<int>, n: nat)
    requires n <= |msgs|
    ensures var r := AvailableUpTo(msgs, used, n);
      && Ascending(r)
      && (forall k :: 0 <= k < |r| ==> 0 <= r[k].0 < n && r[k].0 !in used && r[k].1 == msgs[r[k].0])
      && (forall i :: 0 <= i < n && i !in used ==> (i, msgs[i]) in r)
  {
    if n > 0 {
      AvailableUpToSpec(msgs, used, n - 1);
    }
  }

  /**
   * `available` holds exactly the pairs `(i, messages[i])` whose index is
   * not in `used`, in ascending index order.
   */
  lemma AvailableSpec(msgs: seq<string>, used: seq<int>)
    ensures Ascending(Available(msgs, used))
    ensures forall i, t :: (i, t) in Available(msgs, used) <==> 0 <= i < |msgs| && i !in used && t == msgs[i]
  {
    AvailableUpToSpec(msgs, used, |msgs|);
  }

  /** The indices below `n` that `used` mentions. */
  function UsedBelow(used: seq<int>, n: nat): set<int> {
    set u | u in used && 0 <= u < n
  }

  lemma {:induction false} AvailableUpToCount(msgs: seq<string>, used: seq<int>, n: nat)
    requires n <= |msgs|
    ensures |AvailableUpTo(msgs, used, n)| + |UsedBelow(used, n)| == n
  {
    if n > 0 {
      AvailableUpToCount(msgs, used, n - 1);
      if n - 1 in used {
        assert UsedBelow(used, n) == UsedBelow(used, n - 1) + {n - 1};
      } else {
        assert UsedBelow(used, n) == UsedBelow(used, n - 1);
      }
    }
  }

  /** A list without duplicates has as many distinct elements as entries. */
  lemma {:induction false} NoDupCard(s: seq<int>)
    requires NoDup(s)
    ensures |set u | u in s| == |s|
  {
    if s != [] {
      NoDupCard(s[1..]);
      assert (set u | u in s) == {s[0]} + (set u | u in s[1..]);
      assert s[0] !in s[1..];
    }
  }

  /**
   * While `used` holds distinct indices of the corpus, the number of
   * available messages is the number of messages less the number used:
   * the "remaining" figure of the stock report.
   */
  lemma AvailableCount(msgs: seq<string>, used: seq<int>)
    requires NoDup(used) && InRange(used, |msgs|)
    ensures |Available(msgs, used)| == |msgs| - |used|
  {
    AvailableUpToCount(msgs, used, |msgs|);
    NoDupCard(used);
    assert UsedBelow(used, |msgs|) == set u | u in used;
  }

  /** After a reset every message is available again, each at its own index. */
  lemma {:induction false} AvailableNoneUsed(msgs: seq<string>, n: nat)
    requires n <= |msgs|
    ensures |AvailableUpTo(msgs, [], n)| == n
    ensures forall i :: 0 <= i < n ==> AvailableUpTo(msgs, [], n)[i] == (i, msgs[i])
  {
    if n > 0 {
      AvailableNoneUsed(msgs, n - 1);
    }
  }

  /** `es` without the entries whose index is in `xs`. */
  function Drop(es: seq<Entry>, xs: seq<int>): seq<Entry> {
    if es == [] then [] else (if es[0].0 in xs then [] else [es[0]]) + Drop(es[1..], xs)
  }

  lemma {:induction false} DropAppend(a: seq<Entry>, b: seq<Entry>, xs: seq<int>)
    ensures Drop(a + b, xs) == Drop(a, xs) + Drop(b, xs)
  {
    if a != [] {
      assert (a + b)[1..] == a[1..] + b;
      DropAppend(a[1..], b, xs);
    } else {
      assert a + b == b;
    }
  }

  lemma {:induction false} DropAll(es: seq<Entry>, xs: seq<int>)
    requires forall k :: 0 <= k < |es| ==> es[k].0 in xs
    ensures Drop(es, xs) == []
  {
    if es != [] {
      DropAll(es[1..], xs);
    }
  }

  lemma {:induction false} DropNone(es: seq<Entry>, xs: seq<int>)
    requires forall k :: 0 <= k < |es| ==> es[k].0 !in xs
    ensures Drop(es, xs) == es
  {
    if es != [] {
      DropNone(es[1..], xs);
    }
  }

  /** Marking the indices `xs` used removes exactly their entries from `available`. */
  lemma {:induction false} AvailableUsedMore(msgs: seq<string>, used: seq<int>, xs: seq<int>, n: nat)
    requires n <= |msgs|
    ensures AvailableUpTo(msgs, used + xs, n) == Drop(AvailableUpTo(msgs, used, n), xs)
  {
    if n > 0 {
      AvailableUsedMore(msgs, used, xs, n - 1);
      var e: seq<Entry> := if n - 1 in used then [] else [(n - 1, msgs[n - 1])];
      DropAppend(AvailableUpTo(msgs, used, n - 1), e, xs);
      assert (n - 1 in used + xs) <==> (n - 1 in used || n - 1 in xs);
      if e != [] {
        assert Drop(e, xs) == (if n - 1 in xs then [] else e) by {
          assert e[1..] == [];
        }
      }
    }
  }

  /**
   * `reserve_messages(count)` on the parsed corpus `msgs` and the list
   * `used`: `None` when fewer than `count` messages are available, and
   * otherwise the texts of the first `count` available messages together
   * with `used` extended by their indices.
   */
  function Reserve(msgs: seq<string>, used: seq<int>, count: nat): (r: Option<(seq<string>, seq<int>)>)
    ensures r.None? <==> |Available(msgs, used)| < count
    ensures r.Some? ==> |r.value.0| == count && used <= r.value.1 && |r.value.1| == |used| + count
  {
    var available := Available(msgs, used);
    if |available| < count then None
    else Some((Texts(available[..count]), used + Indices(available[..count])))
  }

  /**
   * A reservation fails exactly when fewer than `count` messages are
   * available. On success it returns `count` texts and appends to `used`
   * exactly `count` indices, each a corpus index that was not used before,
   * in ascending order, each the index of the text returned at the same
   * position, and no available index left behind is smaller than any
   * index taken: they are the first `count` available messages.
   */
  lemma ReserveSpec(msgs: seq<string>, used: seq<int>, count: nat)
    ensures match Reserve(msgs, used, count)
      case None => |Available(msgs, used)| < count
      case Some((texts, after)) =>
        var picked := after[|used|..];
        && count <= |Available(msgs, used)|
        && used <= after
        && |texts| == count == |picked|
        && (forall k :: 0 <= k < count ==> 0 <= picked[k] < |msgs| && picked[k] !in used && texts[k] == msgs[picked[k]])
        && (forall j, k :: 0 <= j < k < count ==> picked[j] < picked[k])
        && (forall i, k :: 0 <= i < |msgs| && i !in used && i !in picked && 0 <= k < count ==> picked[k] < i)
  {
    var a := Available(msgs, used);
    AvailableUpToSpec(msgs, used, |msgs|);
    if count <= |a| {
      var after := used + Indices(a[..count]);
      var picked := after[|used|..];
      assert picked == Indices(a[..count]);
      assert forall j :: 0 <= j < count ==> picked[j] == a[j].0;
      forall i, k | 0 <= i < |msgs| && i !in used && i !in picked && 0 <= k < count
        ensures picked[k] < i
      {
        assert (i, msgs[i]) in a;
        var m :| 0 <= m < |a| && a[m] == (i, msgs[i]);
      }
    }
  }

  /**
   * A reservation keeps `used` free of duplicates and within the corpus:
   * no message index is issued twice between resets.
   */
  lemma ReserveKeepsValid(msgs: seq<string>, used: seq<int>, count: nat)
    requires NoDup(used) && InRange(used, |msgs|)
    ensures Reserve(msgs, used, count).Some? ==>
      var after := Reserve(msgs, used, count).value.1;
      NoDup(after) && InRange(after, |msgs|)
  {
    ReserveSpec(msgs, used, count);
    if Reserve(msgs, used, count).Some? {
      var after := Reserve(msgs, used, count).value.1;
      var picked := after[|used|..];
      forall i, j | 0 <= i < j < |after| ensures after[i] != after[j] {
        if j >= |used| {
          assert after[j] == picked[j - |used|];
          if i >= |used| {
            assert after[i] == picked[i - |used|];
          } else {
            assert after[i] == used[i];
          }
        }
      }
      forall i | 0 <= i < |after| ensures 0 <= after[i] < |msgs| {
        if i >= |used| {
          assert after[i] == picked[i - |used|];
        }
      }
    }
  }

  /** The entries of a list are all marked by its indices. */
  lemma IndicesMark(p: seq<Entry>)
    ensures forall k :: 0 <= k < |p| ==> p[k].0 in Indices(p)
  {
    forall k | 0 <= k < |p| ensures p[k].0 in Indices(p) {
      assert Indices(p)[k] == p[k].0;
    }
  }

  /** In an ascending list, no entry after position `count` has an index among the first `count`. */
  lemma AscendingRestUnmarked(a: seq<Entry>, count: nat)
    requires Ascending(a) && count <= |a|
    ensures forall k :: 0 <= k < |a[count..]| ==> a[count..][k].0 !in Indices(a[..count])
  {
    var xs := Indices(a[..count]);
    forall k | 0 <= k < |a[count..]| ensures a[count..][k].0 !in xs {
      assert a[count..][k] == a[count + k];
      forall j | 0 <= j < |xs| ensures xs[j] != a[count + k].0 {
        assert xs[j] == a[j].0;
      }
    }
  }

  /** Dropping the indices of the first `count` entries of an ascending list drops exactly those entries. */
  lemma DropPrefix(a: seq<Entry>, count: nat)
    requires Ascending(a) && count <= |a|
    ensures Drop(a, Indices(a[..count])) == a[count..]
  {
    var xs := Indices(a[..count]);
    assert a == a[..count] + a[count..];
    DropAppend(a[..count], a[count..], xs);
    IndicesMark(a[..count]);
    DropAll(a[..count], xs);
    AscendingRestUnmarked(a, count);
    DropNone(a[count..], xs);
  }

  /**
   * After a successful reservation of `count` messages, the available list
   * is the old one without its first `count` entries, so it is exactly
   * `count` shorter.
   */
  lemma ReserveConsumes(msgs: seq<string>, used: seq<int>, count: nat)
    ensures Reserve(msgs, used, count).Some? ==>
      var after := Reserve(msgs, used, count).value.1;
      && Available(msgs, after) == Available(msgs, used)[count..]
      && |Available(msgs, after)| == |Available(msgs, used)| - count
  {
    var a := Available(msgs, used);
    if count <= |a| {
      AvailableUsedMore(msgs, used, Indices(a[..count]), |msgs|);
      AvailableUpToSpec(msgs, used, |msgs|);
      DropPrefix(a, count);
    }
  }

  /** The corpus text and the list of issued indices, as the two files hold them. */
  class Ledger {
    var corpus: string
    var used: seq<int>

    /** `used` holds distinct indices of the current corpus. */
    ghost predicate Valid()
      reads this
    {
      NoDup(used) && InRange(used, |SplitMessages(corpus)|)
    }

    /** The state of a fresh install: an empty corpus and nothing used. */
    constructor ()
      ensures corpus == "" && used == []
      ensures Valid()
    {
      corpus := "";
      used := [];
    }

    /**
     * `get_available_messages()`: the parsed corpus, the used list and the
     * available pairs.
     */
    method GetAvailableMessages() returns (messages: seq<string>, usedNow: seq<int>, available: seq<Entry>)
      ensures messages == SplitMessages(corpus)
      ensures usedNow == used
      ensures available == Available(messages, usedNow)
    {
      messages := SplitMessages(corpus);
      usedNow := used;
      available := [];
      var i := 0;
      while i < |messages|
        invariant 0 <= i <= |messages|
        invariant available == AvailableUpTo(messages, usedNow, i)
      {
        if i !in usedNow {
          available := available + [(i, messages[i])];
        }
        i := i + 1;
      }
    }

    /**
     * `reserve_messages(count)`: fails with `used` untouched when fewer
     * than `count` messages are available; otherwise appends the indices of
     * the first `count` available messages to `used` and returns their texts.
     */
    method ReserveMessages(count: nat) returns (r: Option<seq<string>>)
      modifies this`used
      ensures match Reserve(SplitMessages(corpus), old(used), count)
        case None => r == None && used == old(used)
        case Some((texts, after)) => r == Some(texts) && used == after
      ensures old(Valid()) ==> Valid()
    {
      var messages, usedNow, available := GetAvailableMessages();
      if |available| < count {
        return None;
      }
      var selected := available[..count];
      var k := 0;
      while k < |selected|
        invariant 0 <= k <= |selected|
        invariant usedNow == old(used) + Indices(selected[..k])
      {
        assert Indices(selected[..k + 1]) == Indices(selected[..k]) + [selected[k].0];
        usedNow := usedNow + [selected[k].0];
        k := k + 1;
      }
      assert selected[..k] == selected;
      used := usedNow;
      r := Some(Texts(selected));
      if old(Valid()) {
        ReserveKeepsValid(messages, old(used), count);
      }
    }

    /** `save_used([])`: every message becomes available again. */
    method ResetUsed()
      modifies this`used
      ensures used == []
      ensures Valid()
    {
      used := [];
    }

    /** `save_messages_text` of the corpus after an upload of `upload`. */
    method Append(upload: string)
      modifies this`corpus
      ensures corpus == Appended(old(corpus), upload)
      ensures old(Valid()) ==> Valid()
    {
      corpus := Appended(corpus, upload);
    }
  }
}
