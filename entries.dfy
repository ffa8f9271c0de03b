/** The caller-built entry arrays that struct matchers and struct formatters
    walk: each entry applies a child at a byte offset of the composite, and
    an entry without a child (`INIT_MOCK_STRUCT_MATCHER_ENTRY_LAST`) ends the
    array. */
module Entries {
  import opened Wrappers

  datatype Entry<C> = Field(offset: nat, child: C) | Last

  /** `INIT_MOCK_STRUCT_MATCHER_ENTRY` with a child that may be NULL: the
      walk stops at an entry without a child, so a NULL child makes the
      entry a sentinel. */
  function EntryOf<C>(offset: nat, child: Option<C>): (e: Entry<C>)
    ensures e.Last? <==> child.None?
    ensures e.Field? ==> e.offset == offset && e.child == child.value
  {
    if child.None? then Last else Field(offset, child.value)
  }

  /** The number of entries before the first sentinel: how far a traversal
      walks. Nothing after the sentinel is ever looked at. */
  function LiveCount<C>(es: seq<Entry<C>>): (k: nat)
    ensures k <= |es|
    ensures forall i :: 0 <= i < k ==> es[i].Field?
    ensures k < |es| ==> es[k].Last?
  {
    if es == [] || es[0].Last? then 0 else 1 + LiveCount(es[1..])
  }

  /** The array holds a sentinel; without one the C traversal runs off its end. */
  predicate Terminated<C>(es: seq<Entry<C>>)
  {
    LiveCount(es) < |es|
  }

  /** What comes after the first sentinel does not change how far a traversal walks. */
  lemma {:induction false} LiveCountIgnoresTail<C>(es: seq<Entry<C>>, tail: seq<Entry<C>>)
    requires Terminated(es)
    ensures LiveCount(es + tail) == LiveCount(es)
    ensures (es + tail)[..LiveCount(es)] == es[..LiveCount(es)]
  {
    if es[0].Field? {
      assert (es + tail)[1..] == es[1..] + tail;
      LiveCountIgnoresTail(es[1..], tail);
    }
  }

  /** The body both struct traversals write between the braces: every
      child's text, each followed by `", "`. */
  function Joined(parts: seq<string>): (t: string)
    ensures |t| >= 2 * |parts|
  {
    if parts == [] then "" else parts[0] + ", " + Joined(parts[1..])
  }

  lemma {:induction false} JoinedAppend(parts: seq<string>, last: string)
    ensures Joined(parts + [last]) == Joined(parts) + last + ", "
  {
    if parts != [] {
      assert (parts + [last])[1..] == parts[1..] + [last];
      JoinedAppend(parts[1..], last);
    } else {
      assert parts + [last] == [last];
    }
  }
}
