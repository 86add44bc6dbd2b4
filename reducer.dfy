/**
 * The packet reducer of StatsdClient: doReduce, folded over a message array
 * by reduceCount, batches newline-separated metrics into UDP packets of at
 * most MAX_UDP_SIZE_STR bytes, as the etsy/statsd README allows.
 *
 * The fold is modelled exactly as written, with its two quirks: on overflow
 * the new message is pushed BEFORE the popped last packet, which stays last
 * and open for merging; and popping an empty accumulator yields null, which
 * strlen and sprintf treat as the empty string (so it is modelled as "").
 *
 * Layout is an index-level account of the same fold: which input positions
 * each packet is built from. The lemmas below tie Reduce to it and prove
 * what the batching promises: a partition of the input, input order inside each packet, the
 * size bound, oversized messages passing through alone, and recovery of the
 * messages by splitting a packet on newlines.
 */
module Reducer {
  import opened PhpValues

  /** MAX_UDP_SIZE_STR: the largest packet merging may build, in bytes. */
  const MaxUdpSizeStr: nat := 548

  /** The separator between merged messages, fixed to one newline byte. */
  const Eol: char := '\n'

  /** The last element, or `none` when there is none (array_pop on an empty array). */
  function LastOr<T>(s: seq<T>, none: T): T
  {
    if s == [] then none else s[|s| - 1]
  }

  /** What array_pop leaves behind. */
  function Init<T>(s: seq<T>): seq<T>
  {
    if s == [] then [] else s[..|s| - 1]
  }

  /** The test of doReduce: may `msg` be merged into the packet `last`? */
  predicate Fits(last: string, msg: string)
  {
    |last| + |msg| + 1 <= MaxUdpSizeStr
  }

  /** sprintf("%s%s%s", last, separator, msg), the separator present only after a non-empty packet. */
  function Join(last: string, msg: string): (r: string)
    ensures |msg| <= |r| <= |last| + |msg| + 1
  {
    if |last| > 0 then last + [Eol] + msg else last + msg
  }

  /** doReduce: one step of the fold, adding `item` to the accumulated packets `acc`. */
  function DoReduce(acc: seq<string>, item: string): (r: seq<string>)
    // every packet before the popped one is left as it was
    ensures |acc| > 0 ==> |r| >= |acc| && r[..|acc| - 1] == acc[..|acc| - 1]
    // merge: only the last packet changes, and the count is unchanged (0 becomes 1)
    ensures Fits(LastOr(acc, ""), item) ==>
              |r| == (if acc == [] then 1 else |acc|) && r[|r| - 1] == Join(LastOr(acc, ""), item)
    // overflow: the new message goes before the old last packet, which stays last
    ensures !Fits(LastOr(acc, ""), item) ==>
              |r| == (if acc == [] then 2 else |acc| + 1)
              && r[|r| - 2] == item && r[|r| - 1] == LastOr(acc, "")
  {
    var oldLastItem := LastOr(acc, "");
    if MaxUdpSizeStr < |oldLastItem| + |item| + 1 then
      Init(acc) + [item, oldLastItem]
    else
      Init(acc) + [Join(oldLastItem, item)]
  }

  /** array_reduce($arrayData, "self::doReduce", array()): the left fold of DoReduce. */
  function Reduce(items: seq<string>): (packets: seq<string>)
    ensures |packets| <= |items| + 1
    ensures packets == [] <==> items == []
    decreases |items|
  {
    if items == [] then []
    else DoReduce(Reduce(items[..|items| - 1]), items[|items| - 1])
  }

  /** reduceCount: an array is reduced to a list of packets; any other value is returned as it is. */
  function ReduceCount(data: Data): (r: Data)
    ensures !data.Array? ==> r == data
    ensures data.Array? ==> r.Array? && Values(r.entries) == Reduce(Values(data.entries))
    ensures data.Array? ==> forall i :: 0 <= i < |r.entries| ==> r.entries[i].key == IntKey(i)
  {
    if data.Array? then Array(ListOf(Reduce(Values(data.entries)))) else data
  }

  // ---------------------------------------------------------------------
  // Layout: which input positions each packet holds

  /** Every position in the group `g` is below `n`. */
  predicate Below(g: seq<nat>, n: nat)
  {
    forall j :: 0 <= j < |g| ==> g[j] < n
  }

  /** Every position in `groups` is below `n`. */
  ghost predicate InRange(groups: seq<seq<nat>>, n: nat)
  {
    forall k :: 0 <= k < |groups| ==> Below(groups[k], n)
  }

  /** The messages at the positions `g`, in that order. */
  function Pick(items: seq<string>, g: seq<nat>): (ms: seq<string>)
    requires Below(g, |items|)
    ensures |ms| == |g|
  {
    seq(|g|, j requires 0 <= j < |g| => items[g[j]])
  }

  /** The messages `ms` merged one after another into an initially empty packet. */
  function JoinAll(ms: seq<string>): string
  {
    if ms == [] then "" else Join(JoinAll(ms[..|ms| - 1]), ms[|ms| - 1])
  }

  /**
   * The groups of input positions the fold puts together, decided by the
   * same size test applied to the joined text of the open (last) group.
   */
  ghost function Layout(items: seq<string>): (groups: seq<seq<nat>>)
    ensures InRange(groups, |items|)
    decreases |items|
  {
    if items == [] then []
    else
      var n := |items| - 1;
      var prev := Layout(items[..n]);
      var open := LastOr(prev, []);
      InRangeStep(prev, n);
      if Fits(JoinAll(Pick(items, open)), items[n]) then Init(prev) + [open + [n]]
      else Init(prev) + [[n], open]
  }

  /** Both steps of the fold keep every position below the input length. */
  lemma InRangeStep(prev: seq<seq<nat>>, n: nat)
    requires InRange(prev, n)
    ensures Below(LastOr(prev, []), n + 1)
    ensures InRange(Init(prev) + [LastOr(prev, []) + [n]], n + 1)
    ensures InRange(Init(prev) + [[n], LastOr(prev, [])], n + 1)
  {
    var open := LastOr(prev, []);
    assert Below(open, n);
    assert forall k :: 0 <= k < |Init(prev)| ==> Init(prev)[k] == prev[k];
    assert Below(open + [n], n + 1);
  }

  /** The packet text each group stands for. */
  ghost function Packets(items: seq<string>, groups: seq<seq<nat>>): (ps: seq<string>)
    requires InRange(groups, |items|)
    ensures |ps| == |groups|
  {
    seq(|groups|, k requires 0 <= k < |groups| => JoinAll(Pick(items, groups[k])))
  }

  /** Picking from a longer input changes nothing for groups that only use the shorter one. */
  lemma PickPrefix(items: seq<string>, n: nat, g: seq<nat>)
    requires n <= |items| && Below(g, n)
    ensures Pick(items, g) == Pick(items[..n], g)
  {
  }

  /** Adding position `n` to a group appends message `n` to the group's packet. */
  lemma JoinAllSnoc(items: seq<string>, g: seq<nat>, n: nat)
    requires n < |items| && Below(g, |items|)
    ensures Below(g + [n], |items|)
    ensures JoinAll(Pick(items, g + [n])) == Join(JoinAll(Pick(items, g)), items[n])
  {
    var picked := Pick(items, g + [n]);
    assert picked == Pick(items, g) + [items[n]];
    assert picked[..|picked| - 1] == Pick(items, g);
  }

  /** Packets distributes over appending groups. */
  lemma PacketsAppend(items: seq<string>, a: seq<seq<nat>>, b: seq<seq<nat>>)
    requires InRange(a + b, |items|)
    ensures InRange(a, |items|) && InRange(b, |items|)
    ensures Packets(items, a + b) == Packets(items, a) + Packets(items, b)
  {
    assert forall k :: 0 <= k < |a| ==> (a + b)[k] == a[k];
    assert forall k :: 0 <= k < |b| ==> (a + b)[|a| + k] == b[k];
  }

  /** The packets of the groups so far do not depend on the input appended later. */
  lemma PacketsPrefix(items: seq<string>, n: nat, groups: seq<seq<nat>>)
    requires n <= |items| && InRange(groups, n)
    ensures InRange(groups, |items|)
    ensures Packets(items, groups) == Packets(items[..n], groups)
  {
    forall k | 0 <= k < |groups|
      ensures Pick(items, groups[k]) == Pick(items[..n], groups[k])
    {
      PickPrefix(items, n, groups[k]);
    }
  }

  /** The open group's packet is the last packet, and the closed ones are the rest. */
  lemma PacketsSplit(items: seq<string>, groups: seq<seq<nat>>)
    requires InRange(groups, |items|)
    ensures InRange(Init(groups), |items|)
    ensures Init(Packets(items, groups)) == Packets(items, Init(groups))
    ensures LastOr(Packets(items, groups), "") == JoinAll(Pick(items, LastOr(groups, [])))
  {
  }

  /** Merging message `n` into the open group merges it into the last packet. */
  lemma PacketsMerge(items: seq<string>, prev: seq<seq<nat>>)
    requires items != [] && InRange(prev, |items| - 1)
    ensures InRange(Init(prev) + [LastOr(prev, []) + [|items| - 1]], |items|)
    ensures var acc := Packets(items[..|items| - 1], prev);
            Packets(items, Init(prev) + [LastOr(prev, []) + [|items| - 1]])
            == Init(acc) + [Join(LastOr(acc, ""), items[|items| - 1])]
  {
    var n := |items| - 1;
    var x := items[n];
    var acc := Packets(items[..n], prev);
    var open := LastOr(prev, []);
    PacketsPrefix(items, n, prev);
    PacketsSplit(items, prev);
    var g := open + [n];
    assert InRange([g], |items|);
    PacketsAppend(items, Init(prev), [g]);
    JoinAllSnoc(items, open, n);
    var merged := JoinAll(Pick(items, g));
    assert LastOr(acc, "") == JoinAll(Pick(items, open));
    assert Packets(items, [g]) == [merged];
    assert Packets(items, Init(prev)) == Init(acc);
  }

  /** Opening a group for message `n` puts it before the last packet. */
  lemma PacketsOverflow(items: seq<string>, prev: seq<seq<nat>>)
    requires items != [] && InRange(prev, |items| - 1)
    ensures InRange(Init(prev) + [[|items| - 1], LastOr(prev, [])], |items|)
    ensures var acc := Packets(items[..|items| - 1], prev);
            Packets(items, Init(prev) + [[|items| - 1], LastOr(prev, [])])
            == Init(acc) + [items[|items| - 1], LastOr(acc, "")]
  {
    var n := |items| - 1;
    var x := items[n];
    var acc := Packets(items[..n], prev);
    var open := LastOr(prev, []);
    PacketsPrefix(items, n, prev);
    PacketsSplit(items, prev);
    assert InRange([[n], open], |items|);
    PacketsAppend(items, Init(prev), [[n], open]);
    assert Pick(items, [n]) == [x];
    assert JoinAll([x]) == Join(JoinAll([]), x);
    assert Join("", x) == x;
    var ps := Packets(items, [[n], open]);
    assert ps[0] == JoinAll(Pick(items, [n])) && ps[1] == JoinAll(Pick(items, open));
  }

  /** The packets Reduce builds are exactly the joined groups of Layout. */
  lemma {:induction false} LayoutReduce(items: seq<string>)
    ensures Reduce(items) == Packets(items, Layout(items))
    decreases |items|
  {
    if items != [] {
      var n := |items| - 1;
      var xs := items[..n];
      LayoutReduce(xs);
      var prev := Layout(xs);
      var acc := Reduce(xs);
      var open := LastOr(prev, []);
      PacketsSplit(xs, prev);
      PickPrefix(items, n, open);
      assert LastOr(acc, "") == JoinAll(Pick(items, open));
      assert Reduce(items) == DoReduce(acc, items[n]);
      if Fits(JoinAll(Pick(items, open)), items[n]) {
        PacketsMerge(items, prev);
        assert Layout(items) == Init(prev) + [open + [n]];
      } else {
        PacketsOverflow(items, prev);
        assert Layout(items) == Init(prev) + [[n], open];
      }
    }
  }

  // ---------------------------------------------------------------------
  // Every message lands in exactly one packet

  /** The positions 0, 1, ..., n - 1. */
  function Range(n: nat): (r: seq<nat>)
    ensures |r| == n
    ensures forall i :: 0 <= i < n ==> r[i] == i
  {
    seq(n, i => i)
  }

  lemma RangeSnoc(n: nat)
    ensures Range(n + 1) == Range(n) + [n]
  {
  }

  /** All positions of all groups, group after group. */
  ghost function Flatten(groups: seq<seq<nat>>): seq<nat>
  {
    if groups == [] then [] else Flatten(Init(groups)) + LastOr(groups, [])
  }

  lemma FlattenSnoc(groups: seq<seq<nat>>, g: seq<nat>)
    ensures Flatten(groups + [g]) == Flatten(groups) + g
  {
    assert Init(groups + [g]) == groups;
  }

  /** The closed groups followed by the open one. */
  lemma FlattenInit(groups: seq<seq<nat>>)
    ensures Flatten(groups) == Flatten(Init(groups)) + LastOr(groups, [])
  {
  }

  /** Merging position `n` into the open group adds it to the layout and removes nothing. */
  lemma FlattenMerge(prev: seq<seq<nat>>, n: nat)
    ensures multiset(Flatten(Init(prev) + [LastOr(prev, []) + [n]]))
            == multiset(Flatten(prev)) + multiset{n}
  {
    var open := LastOr(prev, []);
    var closed := Flatten(Init(prev));
    FlattenInit(prev);
    FlattenSnoc(Init(prev), open + [n]);
    assert Flatten(Init(prev) + [open + [n]]) == closed + open + [n];
    assert Flatten(prev) == closed + open;
    assert closed + open + [n] == Flatten(prev) + [n];
  }

  /** Opening a group for position `n` adds it to the layout and removes nothing. */
  lemma FlattenOverflow(prev: seq<seq<nat>>, n: nat)
    ensures multiset(Flatten(Init(prev) + [[n], LastOr(prev, [])]))
            == multiset(Flatten(prev)) + multiset{n}
  {
    var open := LastOr(prev, []);
    var front := Init(prev);
    var closed := Flatten(front);
    FlattenInit(prev);
    FlattenSnoc(front, [n]);
    FlattenSnoc(front + [[n]], open);
    assert front + [[n], open] == front + [[n]] + [open];
    MultisetMiddle(closed, n, open);
  }

  /** Moving one element to the end does not change the multiset. */
  lemma MultisetMiddle(a: seq<nat>, n: nat, b: seq<nat>)
    ensures multiset(a + [n] + b) == multiset(a + b) + multiset{n}
  {
    assert a + [n] + b == (a + [n]) + b;
    assert multiset((a + [n]) + b) == multiset(a) + multiset{n} + multiset(b);
  }

  /** Each position of the input occurs once in the layout, and no other position does. */
  lemma {:induction false} LayoutPartition(items: seq<string>)
    ensures multiset(Flatten(Layout(items))) == multiset(Range(|items|))
    decreases |items|
  {
    if items != [] {
      var n := |items| - 1;
      var xs := items[..n];
      LayoutPartition(xs);
      var prev := Layout(xs);
      var open := LastOr(prev, []);
      if Fits(JoinAll(Pick(items, open)), items[n]) {
        assert Layout(items) == Init(prev) + [open + [n]];
        FlattenMerge(prev, n);
      } else {
        assert Layout(items) == Init(prev) + [[n], open];
        FlattenOverflow(prev, n);
      }
      assert multiset(Flatten(Layout(items))) == multiset(Range(n)) + multiset{n};
      RangeSnoc(n);
    }
  }

  lemma {:induction false} RangeOnce(n: nat, i: nat)
    ensures multiset(Range(n))[i] == if i < n then 1 else 0
  {
    if n > 0 {
      RangeOnce(n - 1, i);
      RangeSnoc(n - 1);
    }
  }

  /** Every input message is placed in exactly one packet, exactly once. */
  lemma InExactlyOnePacket(items: seq<string>, i: nat)
    requires i < |items|
    ensures Reduce(items) == Packets(items, Layout(items))
    ensures multiset(Flatten(Layout(items)))[i] == 1
  {
    LayoutReduce(items);
    LayoutPartition(items);
    RangeOnce(|items|, i);
  }

  // ---------------------------------------------------------------------
  // Order inside a packet

  /** The positions of a group rise strictly. */
  ghost predicate Increasing(g: seq<nat>)
  {
    forall a, b :: 0 <= a < b < |g| ==> g[a] < g[b]
  }

  /** The messages inside every packet keep their relative input order. */
  lemma {:induction false} LayoutOrdered(items: seq<string>)
    ensures forall k :: 0 <= k < |Layout(items)| ==> Increasing(Layout(items)[k])
    decreases |items|
  {
    if items != [] {
      var n := |items| - 1;
      var xs := items[..n];
      LayoutOrdered(xs);
      var prev := Layout(xs);
      var open := LastOr(prev, []);
      var closed := Init(prev);
      InRangeStep(prev, n);
      assert forall k :: 0 <= k < |closed| ==> closed[k] == prev[k];
      var L := Layout(items);
      var fits := Fits(JoinAll(Pick(items, open)), items[n]);
      assert L == if fits then closed + [open + [n]] else closed + [[n], open];
      forall k | 0 <= k < |L|
        ensures Increasing(L[k])
      {
        if k < |closed| {
          assert L[k] == prev[k];
        } else if fits {
          assert L[k] == open + [n];
          assert prev != [] ==> open == prev[|prev| - 1];
          IncreasingSnoc(open, n);
        } else if k == |closed| {
          assert L[k] == [n];
        } else {
          assert L[k] == open;
          assert prev != [] ==> open == prev[|prev| - 1];
        }
      }
    }
  }

  /** Adding a position beyond all of a group's positions keeps the group rising. */
  lemma IncreasingSnoc(g: seq<nat>, n: nat)
    requires Increasing(g) && Below(g, n)
    ensures Increasing(g + [n])
  {
    assert forall j :: 0 <= j < |g| ==> (g + [n])[j] == g[j];
  }

  // ---------------------------------------------------------------------
  // The size bound

  /** A merge happens only when it fits, so the merged group joins to at most MAX_UDP_SIZE_STR bytes. */
  lemma MergedFits(items: seq<string>, open: seq<nat>, n: nat)
    requires n < |items| && Below(open, n)
    requires Fits(JoinAll(Pick(items, open)), items[n])
    ensures Below(open + [n], |items|)
    ensures |JoinAll(Pick(items, open + [n]))| <= MaxUdpSizeStr
  {
    JoinAllSnoc(items, open, n);
  }

  /** A group of two or more messages joins to at most MAX_UDP_SIZE_STR bytes. */
  lemma {:induction false} LayoutBound(items: seq<string>)
    ensures forall k :: 0 <= k < |Layout(items)| && |Layout(items)[k]| >= 2 ==>
              |JoinAll(Pick(items, Layout(items)[k]))| <= MaxUdpSizeStr
    decreases |items|
  {
    if items != [] {
      var n := |items| - 1;
      var xs := items[..n];
      LayoutBound(xs);
      var prev := Layout(xs);
      var open := LastOr(prev, []);
      var closed := Init(prev);
      InRangeStep(prev, n);
      assert forall k :: 0 <= k < |closed| ==> closed[k] == prev[k];
      var L := Layout(items);
      var fits := Fits(JoinAll(Pick(items, open)), items[n]);
      assert L == if fits then closed + [open + [n]] else closed + [[n], open];
      forall k | 0 <= k < |L| && |L[k]| >= 2
        ensures |JoinAll(Pick(items, L[k]))| <= MaxUdpSizeStr
      {
        if k < |closed| {
          assert L[k] == prev[k];
          PickPrefix(items, n, prev[k]);
        } else if fits {
          assert L[k] == open + [n];
          MergedFits(items, open, n);
        } else {
          assert k == |closed| + 1 && L[k] == open && prev != [];
          assert open == prev[|prev| - 1];
          PickPrefix(items, n, open);
        }
      }
    }
  }

  /** A group of at most one message is that message, or the empty placeholder. */
  lemma JoinAllSmall(items: seq<string>, g: seq<nat>)
    requires |g| <= 1 && Below(g, |items|)
    ensures JoinAll(Pick(items, g)) == if g == [] then "" else items[g[0]]
  {
    if g != [] {
      assert Pick(items, g) == [items[g[0]]];
      assert JoinAll([items[g[0]]]) == Join("", items[g[0]]);
    }
  }

  /**
   * Every packet that joins two or more messages fits in MAX_UDP_SIZE_STR
   * bytes; hence when every message does, every packet does.
   */
  lemma PacketBound(items: seq<string>)
    ensures var L := Layout(items);
            |Reduce(items)| == |L|
            && forall k :: 0 <= k < |L| && |L[k]| >= 2 ==> |Reduce(items)[k]| <= MaxUdpSizeStr
    ensures (forall i :: 0 <= i < |items| ==> |items[i]| <= MaxUdpSizeStr) ==>
              forall k :: 0 <= k < |Reduce(items)| ==> |Reduce(items)[k]| <= MaxUdpSizeStr
  {
    var L := Layout(items);
    LayoutReduce(items);
    LayoutBound(items);
    forall k | 0 <= k < |L| && |L[k]| <= 1
      ensures JoinAll(Pick(items, L[k])) == if L[k] == [] then "" else items[L[k][0]]
    {
      JoinAllSmall(items, L[k]);
    }
  }

  // ---------------------------------------------------------------------
  // Oversized messages

  /** A message of MAX_UDP_SIZE_STR bytes or more forms a closed group of its own. */
  lemma {:induction false} OversizedAlone(items: seq<string>, i: nat)
    requires i < |items| && |items[i]| >= MaxUdpSizeStr
    ensures exists k :: 0 <= k < |Layout(items)| - 1 && Layout(items)[k] == [i]
    decreases |items|
  {
    var n := |items| - 1;
    var xs := items[..n];
    var prev := Layout(xs);
    var open := LastOr(prev, []);
    if i == n {
      assert !Fits(JoinAll(Pick(items, open)), items[n]);
      assert Layout(items) == Init(prev) + [[n], open];
      assert Layout(items)[|Init(prev)|] == [i];
    } else {
      OversizedAlone(xs, i);
      var k :| 0 <= k < |prev| - 1 && prev[k] == [i];
      assert Init(prev)[k] == [i];
      if Fits(JoinAll(Pick(items, open)), items[n]) {
        assert Layout(items) == Init(prev) + [open + [n]];
      } else {
        assert Layout(items) == Init(prev) + [[n], open];
      }
      assert Layout(items)[k] == [i];
    }
  }

  /** Oversized messages pass through unsplit and unmodified, as a packet no later message joins. */
  lemma OversizedPassThrough(items: seq<string>, i: nat)
    requires i < |items| && |items[i]| >= MaxUdpSizeStr
    ensures exists k :: 0 <= k < |Reduce(items)| - 1 && Reduce(items)[k] == items[i]
  {
    OversizedAlone(items, i);
    LayoutReduce(items);
    var k :| 0 <= k < |Layout(items)| - 1 && Layout(items)[k] == [i];
    JoinAllSmall(items, [i]);
    assert Reduce(items)[k] == items[i];
  }

  // ---------------------------------------------------------------------
  // Recovering the messages from a packet

  /** The position of the last `c` in `s`. */
  function LastIndexOf(s: string, c: char): (j: nat)
    requires c in s
    ensures j < |s| && s[j] == c
    ensures forall t :: j < t < |s| ==> s[t] != c
  {
    if s[|s| - 1] == c then |s| - 1 else LastIndexOf(s[..|s| - 1], c)
  }

  /** A packet split at its newlines, as the StatsD server reads it. */
  function SplitLines(s: string): (lines: seq<string>)
    ensures |lines| >= 1
    decreases |s|
  {
    if Eol !in s then [s]
    else
      var j := LastIndexOf(s, Eol);
      SplitLines(s[..j]) + [s[j + 1..]]
  }

  /** A message that the newline framing can carry: non-empty, with no newline of its own. */
  predicate IsLine(m: string)
  {
    m != [] && Eol !in m
  }

  /** In `p + [c] + m`, where `m` has no `c`, the last `c` is the one between them. */
  lemma LastIndexOfJoin(p: string, c: char, m: string)
    requires c !in m
    ensures c in p + [c] + m
    ensures LastIndexOf(p + [c] + m, c) == |p|
  {
    var s := p + [c] + m;
    assert s[|p|] == c;
    assert forall t :: |p| < t < |s| ==> s[t] == m[t - |p| - 1];
    assert forall t :: |p| < t < |s| ==> s[t] != c;
  }

  /** The last newline of `p + "\n" + m` is the one joining them. */
  lemma SplitLast(p: string, m: string)
    requires Eol !in m
    ensures SplitLines(p + [Eol] + m) == SplitLines(p) + [m]
  {
    var s := p + [Eol] + m;
    LastIndexOfJoin(p, Eol, m);
    assert s[..|p|] == p;
    assert s[|p| + 1..] == m;
    assert SplitLines(s) == SplitLines(s[..|p|]) + [s[|p| + 1..]];
  }

  /** Splitting a packet joined from proper messages gives back those messages. */
  lemma {:induction false} SplitJoinAll(ms: seq<string>)
    requires ms != []
    requires forall i :: 0 <= i < |ms| ==> IsLine(ms[i])
    ensures SplitLines(JoinAll(ms)) == ms
    decreases |ms|
  {
    var init, m := ms[..|ms| - 1], ms[|ms| - 1];
    assert ms == init + [m];
    assert IsLine(m);
    assert JoinAll(ms) == Join(JoinAll(init), m);
    if init == [] {
      assert JoinAll(ms) == m;
      assert ms == [m];
    } else {
      assert forall i :: 0 <= i < |init| ==> init[i] == ms[i];
      SplitJoinAll(init);
      var p := JoinAll(init);
      assert p == Join(JoinAll(init[..|init| - 1]), init[|init| - 1]);
      assert |p| > 0;
      assert JoinAll(ms) == p + [Eol] + m;
      SplitLast(p, m);
    }
  }

  /**
   * When every message is a proper line, splitting each packet gives back
   * exactly the messages of its group, unmodified and in input order.
   */
  lemma ReduceRecoversMessages(items: seq<string>)
    requires forall i :: 0 <= i < |items| ==> IsLine(items[i])
    ensures var L := Layout(items);
            |Reduce(items)| == |L|
            && forall k :: 0 <= k < |L| && L[k] != [] ==> SplitLines(Reduce(items)[k]) == Pick(items, L[k])
  {
    var L := Layout(items);
    LayoutReduce(items);
    forall k | 0 <= k < |L| && L[k] != []
      ensures SplitLines(Reduce(items)[k]) == Pick(items, L[k])
    {
      SplitJoinAll(Pick(items, L[k]));
    }
  }

  // ---------------------------------------------------------------------
  // Edge cases and the documented scenarios

  /**
   * Any number of empty messages fold into one empty packet: the size test
   * always passes, and no separator follows an empty packet. PHP's sprintf
   * prints false as "", so this is what reduceCount makes of the false
   * entries the sampling call as written produces.
   */
  lemma {:induction false} ReduceBlanks(items: seq<string>)
    requires items != []
    requires forall i :: 0 <= i < |items| ==> items[i] == ""
    ensures Reduce(items) == [""]
    decreases |items|
  {
    var init := items[..|items| - 1];
    if init != [] {
      assert forall i :: 0 <= i < |init| ==> init[i] == items[i];
      ReduceBlanks(init);
    }
  }

  /**
   * An empty array reduces to no packet; a single message of at most 547
   * bytes to itself; a longer one to itself followed by the popped null.
   */
  lemma EdgeCases(m: string)
    ensures Reduce([]) == []
    ensures |m| < MaxUdpSizeStr ==> Reduce([m]) == [m]
    ensures |m| >= MaxUdpSizeStr ==> Reduce([m]) == [m, ""]
  {
    assert [m][..0] == [];
    assert Join("", m) == m;
  }

  /** A string of n copies of c. */
  function Repeat(c: char, n: nat): (s: string)
    ensures |s| == n
  {
    seq(n, _ => c)
  }

  /** Two 300-byte messages do not fit one packet: the second lands BEFORE the first. */
  lemma ScenarioOverflowOrder()
    ensures Reduce([Repeat('a', 300), Repeat('b', 300)]) == [Repeat('b', 300), Repeat('a', 300)]
  {
    var a, b := Repeat('a', 300), Repeat('b', 300);
    assert [a, b][..1] == [a];
    EdgeCases(a);
    assert Reduce([a, b]) == DoReduce([a], b);
  }

  /** Two 10-byte messages share one packet, joined by a newline. */
  lemma ScenarioMerge()
    ensures Reduce([Repeat('x', 10), Repeat('y', 10)]) == [Repeat('x', 10) + "\n" + Repeat('y', 10)]
  {
    var x, y := Repeat('x', 10), Repeat('y', 10);
    assert [x, y][..1] == [x];
    EdgeCases(x);
    assert Reduce([x, y]) == DoReduce([x], y);
  }

  /** A later message fills the empty placeholder left behind an oversized first one. */
  lemma ScenarioPlaceholder()
    ensures Reduce([Repeat('z', 600), "c:1|c"]) == [Repeat('z', 600), "c:1|c"]
  {
    var z := Repeat('z', 600);
    assert [z, "c:1|c"][..1] == [z];
    EdgeCases(z);
    assert Reduce([z, "c:1|c"]) == DoReduce([z, ""], "c:1|c");
    assert Join("", "c:1|c") == "c:1|c";
  }
}
