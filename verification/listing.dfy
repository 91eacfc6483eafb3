/**
 * The message packing of `command_list_all`: the formatted entries are
 * joined with line breaks into as few messages as the loop produces. A
 * message keeps growing while it is shorter than `MSG_CHAR_LIMIT`, so the
 * length test comes before the append and a message may end up longer than the
 * limit; every message but the last reaches it.
 */
module Listing {

  /** `MSG_CHAR_LIMIT` */
  const MsgCharLimit: nat := 4000

  /** `'\n'.join(xs)` */
  function JoinLines(xs: seq<string>): string
    decreases |xs|
  {
    if |xs| == 0 then ""
    else if |xs| == 1 then xs[0]
    else JoinLines(xs[..|xs| - 1]) + "\n" + xs[|xs| - 1]
  }

  /** The entries of the groups, in order. */
  function Flatten(groups: seq<seq<string>>): seq<string>
    decreases |groups|
  {
    if groups == [] then [] else Flatten(groups[..|groups| - 1]) + groups[|groups| - 1]
  }

  /** Joining two non-empty runs of lines is joining their joins. */
  lemma {:induction false} JoinLinesAppend(a: seq<string>, b: seq<string>)
    requires a != [] && b != []
    ensures JoinLines(a + b) == JoinLines(a) + "\n" + JoinLines(b)
    decreases |b|
  {
    var n := |b|;
    assert (a + b)[..|a + b| - 1] == a + b[..n - 1];
    if n > 1 {
      JoinLinesAppend(a, b[..n - 1]);
    } else {
      assert a + b[..n - 1] == a;
    }
  }

  /** Joining the joined groups gives the join of all their entries. */
  lemma {:induction false} JoinLinesFlatten(messages: seq<string>, groups: seq<seq<string>>)
    requires |messages| == |groups| > 0
    requires forall i :: 0 <= i < |groups| ==> groups[i] != [] && messages[i] == JoinLines(groups[i])
    ensures JoinLines(messages) == JoinLines(Flatten(groups))
    decreases |groups|
  {
    var n := |groups|;
    if n == 1 {
      assert groups[..0] == [];
      assert Flatten(groups) == groups[0];
    } else {
      var ms, gs := messages[..n - 1], groups[..n - 1];
      JoinLinesFlatten(ms, gs);
      assert Flatten(gs) != [] by {
        assert Flatten(gs) == Flatten(gs[..n - 2]) + gs[n - 2];
      }
      JoinLinesAppend(Flatten(gs), groups[n - 1]);
    }
  }

  /** Appending to the last group appends to the flattened entries. */
  lemma FlattenExtendLast(groups: seq<seq<string>>, e: string)
    requires groups != []
    ensures Flatten(groups[|groups| - 1 := groups[|groups| - 1] + [e]]) == Flatten(groups) + [e]
  {
    var n := |groups|;
    var gs := groups[n - 1 := groups[n - 1] + [e]];
    assert gs[..n - 1] == groups[..n - 1];
  }

  /** Starting a new group appends to the flattened entries. */
  lemma FlattenNewGroup(groups: seq<seq<string>>, e: string)
    ensures Flatten(groups + [[e]]) == Flatten(groups) + [e]
  {
    assert (groups + [[e]])[..|groups|] == groups;
  }

  /**
   * `messages` are the joins of `groups`, which cut `done` into consecutive
   * non-empty runs; a run was extended only while its message was under the
   * limit, and every message but the last reached the limit.
   */
  ghost predicate Packed(messages: seq<string>, groups: seq<seq<string>>, done: seq<string>) {
    && |messages| == |groups| && Flatten(groups) == done
    && (forall k :: 0 <= k < |groups| ==> groups[k] != [] && messages[k] == JoinLines(groups[k]))
    && (forall k :: 0 <= k < |groups| ==> |JoinLines(groups[k][..|groups[k]| - 1])| < MsgCharLimit)
    && (forall k :: 0 <= k < |messages| - 1 ==> |messages[k]| >= MsgCharLimit)
  }

  /** The first line of a join starts it. */
  lemma {:induction false} JoinLinesStart(xs: seq<string>)
    requires xs != []
    ensures xs[0] <= JoinLines(xs)
    decreases |xs|
  {
    if |xs| > 1 {
      var init := xs[..|xs| - 1];
      JoinLinesStart(init);
      var j := JoinLines(init);
      assert (j + "\n" + xs[|xs| - 1])[..|xs[0]|] == j[..|xs[0]|];
    }
  }

  /** The first entry of the flattened groups is the first entry of the first group. */
  lemma {:induction false} FlattenStart(groups: seq<seq<string>>)
    requires groups != [] && groups[0] != []
    ensures Flatten(groups) != [] && Flatten(groups)[0] == groups[0][0]
    decreases |groups|
  {
    if |groups| > 1 {
      FlattenStart(groups[..|groups| - 1]);
    } else {
      assert groups[..0] == [];
    }
  }

  /** The first message starts with the first entry. */
  lemma PackedStart(messages: seq<string>, groups: seq<seq<string>>, done: seq<string>)
    requires Packed(messages, groups, done) && messages != []
    ensures done != [] && done[0] <= messages[0]
  {
    FlattenStart(groups);
    JoinLinesStart(groups[0]);
  }

  /** The packed messages, joined with line breaks, are the entries joined with line breaks. */
  lemma PackedJoin(messages: seq<string>, groups: seq<seq<string>>, done: seq<string>)
    requires Packed(messages, groups, done) && messages != []
    ensures JoinLines(messages) == JoinLines(done)
  {
    JoinLinesFlatten(messages, groups);
  }

  /** Before the loop: the first entry alone is the first message. */
  lemma PackedFirst(e: string)
    ensures Packed([e], [[e]], [e])
  {
    assert Flatten([[e]]) == Flatten([]) + [e];
    assert [e][..0] == [];
  }

  /** The loop's first branch: the last message is under the limit and takes the entry. */
  lemma PackedExtend(messages: seq<string>, groups: seq<seq<string>>, done: seq<string>, e: string)
    requires Packed(messages, groups, done) && messages != []
    requires |messages[|messages| - 1]| < MsgCharLimit
    ensures var last := |messages| - 1;
      Packed(messages[last := messages[last] + "\n" + e], groups[last := groups[last] + [e]], done + [e])
  {
    var last := |messages| - 1;
    var g := groups[last] + [e];
    assert g[..|g| - 1] == groups[last];
    FlattenExtendLast(groups, e);
  }

  /** The loop's second branch: the last message reached the limit, so the entry starts a new one. */
  lemma PackedNew(messages: seq<string>, groups: seq<seq<string>>, done: seq<string>, e: string)
    requires Packed(messages, groups, done) && messages != []
    requires |messages[|messages| - 1]| >= MsgCharLimit
    ensures Packed(messages + [e], groups + [[e]], done + [e])
  {
    FlattenNewGroup(groups, e);
    var g := [e];
    assert g[..|g| - 1] == [];
  }

  /**
   * The loop of `command_list_all` over `entries` (the formatted mods). The
   * messages come from cutting `entries` into consecutive non-empty `groups`
   * and joining each with line breaks, so no entry is split; a group is
   * extended only while its message is under the limit, and every message
   * but the last reached the limit. An empty list gives no messages: the
   * caller sends its "list is empty" notice instead.
   */
  method ChunkEntries(entries: seq<string>) returns (messages: seq<string>, ghost groups: seq<seq<string>>)
    ensures entries == [] <==> messages == []
    ensures Packed(messages, groups, entries)
    ensures entries != [] ==> entries[0] <= messages[0]
    ensures entries != [] ==> JoinLines(messages) == JoinLines(entries)
  {
    if entries == [] {
      assert Flatten([]) == [];
      return [], [];
    }
    messages := [entries[0]];
    groups := [[entries[0]]];
    PackedFirst(entries[0]);
    assert entries[..1] == [entries[0]];
    for i := 1 to |entries|
      invariant messages != [] && Packed(messages, groups, entries[..i])
    {
      var last := |messages| - 1;
      if |messages[last]| < MsgCharLimit {
        PackedExtend(messages, groups, entries[..i], entries[i]);
        messages := messages[last := messages[last] + "\n" + entries[i]];
        groups := groups[last := groups[last] + [entries[i]]];
      } else {
        PackedNew(messages, groups, entries[..i], entries[i]);
        messages := messages + [entries[i]];
        groups := groups + [[entries[i]]];
      }
      assert entries[..i + 1] == entries[..i] + [entries[i]];
    }
    assert entries[..|entries|] == entries;
    PackedJoin(messages, groups, entries);
    PackedStart(messages, groups, entries);
  }
}
