/** The argument matchers of KUnit's mocking library: each one looks at the
    value a mocked call was given, writes a trace of what it compared to the
    diagnostic stream and returns its verdict. `Verdict`, `Trace` and `Writes`
    say what a matcher computes; `Match` is the call itself, proved to do
    exactly that. */
module Matchers {
  import opened Wrappers
  import opened Kinds
  import opened Values
  import opened Render
  import opened Entries
  import opened Kunit

  /** The `capture_param` callback of a capturer: one of the two ready-made
      ones, or one the test supplies (foreign code, kept as a function of the
      test handle and the matched value; `None` is its NULL). */
  datatype CaptureFn =
    | CaptureIntFn
    | CapturePtrFn
    | Custom(f: (TestRef, Value) -> Option<Value>)

  /** `struct mock_param_capturer`: decorates a child matcher and keeps the
      last value captured by a successful match. */
  class Capturer {
    const child: Matcher
    const capture: CaptureFn
    var captured: Option<Value>

    constructor (child: Matcher, capture: CaptureFn)
      ensures this.child == child && this.capture == capture && captured == None
    {
      this.child := child;
      this.capture := capture;
      captured := None;
    }

    /** The embedded `matcher` member, as handed to the mock: it answers
        with its child's verdict and trace, and after the child's captures
        it captures the value into this capturer when the child matched. */
    function AsMatcher(): (m: Matcher)
      ensures forall v :: Verdict(m, v) == Verdict(child, v) && Trace(m, v) == Trace(child, v)
      ensures Capturers(m) == {this} + Capturers(child)
      ensures forall v :: Writes(m, v) == Writes(child, v) + (if Verdict(child, v) then [(this, v)] else [])
    {
      Capture(this, child)
    }
  }

  /** One `struct mock_param_matcher` and what it owns. `Rel` is the whole
      `DEFINE_MATCHER` family: one kind, one operator, the expected value. */
  datatype Matcher =
    | Any
    | Rel(kind: Kind, op: Op, expected: int)
    | MemEq(buf: seq<byte>, size: nat)
    | StrEq(str: string)
    | StrContains(needle: string)
    | Struct(name: string, entries: seq<Entry<Matcher>>)
    | Capture(capturer: Capturer, child: Matcher)

  // ---------------------------------------------------------------------
  // Substring search (strstr)

  predicate OccursAt(haystack: string, needle: string, i: nat)
  {
    i + |needle| <= |haystack| && haystack[i..i + |needle|] == needle
  }

  /** The first position at or after `from` where `needle` occurs. */
  function SearchFrom(haystack: string, needle: string, from: nat): (r: Option<nat>)
    requires from <= |haystack|
    ensures r.Some? ==> from <= r.value && OccursAt(haystack, needle, r.value)
    ensures r.Some? ==> forall j :: from <= j < r.value ==> !OccursAt(haystack, needle, j)
    ensures r.None? ==> forall j :: from <= j <= |haystack| ==> !OccursAt(haystack, needle, j)
    decreases |haystack| - from
  {
    if OccursAt(haystack, needle, from) then Some(from)
    else if from == |haystack| then None
    else SearchFrom(haystack, needle, from + 1)
  }

  /** `strstr`: the first occurrence of `needle` in `haystack`, or NULL. */
  function StrStr(haystack: string, needle: string): (r: Option<nat>)
    ensures r.Some? ==> OccursAt(haystack, needle, r.value)
    ensures r.Some? ==> forall j :: 0 <= j < r.value ==> !OccursAt(haystack, needle, j)
    ensures r.None? ==> forall j :: 0 <= j <= |haystack| ==> !OccursAt(haystack, needle, j)
  {
    SearchFrom(haystack, needle, 0)
  }

  /** The needle occurs as a contiguous piece of the haystack. */
  ghost predicate Contains(haystack: string, needle: string)
  {
    exists i: nat :: OccursAt(haystack, needle, i)
  }

  lemma StrStrFindsExactly(haystack: string, needle: string)
    ensures StrStr(haystack, needle).Some? <==> Contains(haystack, needle)
  {
    if Contains(haystack, needle) {
      var r: nat :| OccursAt(haystack, needle, r);
      assert r <= |haystack|;
    }
  }

  // ---------------------------------------------------------------------
  // What a match computes

  /** The text a relational matcher writes: `CMP_FORMAT(type, "", op)` when
      the relation holds, `CMP_FORMAT(type, " not", op)` when it does not. */
  function RelTrace(k: Kind, op: Op, a: int, e: int): string
  {
    if Holds(op, a, e) then Show(k, a) + " " + Token(op) + " " + Show(k, e)
    else Show(k, a) + " not " + Token(op) + " " + Show(k, e)
  }

  /** Every actual byte, the separator, every expected byte. */
  function MemEqTrace(a: seq<byte>, e: seq<byte>): string
  {
    HexDump(a) + (if a == e then "== " else "!= ") + HexDump(e)
  }

  function StrEqTrace(a: string, e: string): string
  {
    if a == e then a + " == " + e else a + " != " + e
  }

  function StrContainsTrace(needle: string, haystack: string): string
  {
    if StrStr(haystack, needle).Some? then "'" + needle + "' found in '" + haystack + "'"
    else "'" + needle + "' not found in '" + haystack + "'"
  }

  function Verdict(m: Matcher, v: Value): bool
    decreases m, 1
  {
    match m
    case Any => true
    case Rel(k, op, e) => Holds(op, ScalarOf(v), e)
    case MemEq(e, n) => Take(BytesOf(v), n) == Take(e, n)
    case StrEq(e) => TextOf(v) == e
    case StrContains(nd) => StrStr(TextOf(v), nd).Some?
    case Struct(_, es) => FieldsVerdict(m, v, LiveCount(es))
    case Capture(_, ch) => Verdict(ch, v)
  }

  /** The accumulated `matches` after the first `k` entries. */
  function FieldsVerdict(m: Matcher, v: Value, k: nat): bool
    requires m.Struct? && k <= LiveCount(m.entries)
    decreases m, 0, k
  {
    if k == 0 then true
    else
      var e := m.entries[k - 1];
      FieldsVerdict(m, v, k - 1) && Verdict(e.child, FieldAt(v, e.offset))
  }

  function Trace(m: Matcher, v: Value): string
    decreases m, 1
  {
    match m
    case Any => "don't care"
    case Rel(k, op, e) => RelTrace(k, op, ScalarOf(v), e)
    case MemEq(e, n) => MemEqTrace(Take(BytesOf(v), n), Take(e, n))
    case StrEq(e) => StrEqTrace(TextOf(v), e)
    case StrContains(nd) => StrContainsTrace(nd, TextOf(v))
    case Struct(name, es) => "struct " + name + " {" + FieldsTrace(m, v, LiveCount(es)) + "}"
    case Capture(_, ch) => Trace(ch, v)
  }

  /** What the first `k` entries write: each child's trace and `", "`. */
  function FieldsTrace(m: Matcher, v: Value, k: nat): string
    requires m.Struct? && k <= LiveCount(m.entries)
    decreases m, 0, k
  {
    if k == 0 then ""
    else
      var e := m.entries[k - 1];
      FieldsTrace(m, v, k - 1) + Trace(e.child, FieldAt(v, e.offset)) + ", "
  }

  /** The capturers a match may update. */
  ghost function Capturers(m: Matcher): set<Capturer>
    decreases m, 1
  {
    match m
    case Struct(_, es) => FieldsCapturers(m, LiveCount(es))
    case Capture(c, ch) => {c} + Capturers(ch)
    case _ => {}
  }

  ghost function FieldsCapturers(m: Matcher, k: nat): set<Capturer>
    requires m.Struct? && k <= LiveCount(m.entries)
    decreases m, 0, k
  {
    if k == 0 then {} else FieldsCapturers(m, k - 1) + Capturers(m.entries[k - 1].child)
  }

  /** The captures a match performs, in order: which capturer stores which
      matched value. A capturer captures after its child has matched. */
  ghost function Writes(m: Matcher, v: Value): seq<(Capturer, Value)>
    decreases m, 1
  {
    match m
    case Struct(_, es) => FieldsWrites(m, v, LiveCount(es))
    case Capture(c, ch) => Writes(ch, v) + (if Verdict(ch, v) then [(c, v)] else [])
    case _ => []
  }

  ghost function FieldsWrites(m: Matcher, v: Value, k: nat): seq<(Capturer, Value)>
    requires m.Struct? && k <= LiveCount(m.entries)
    decreases m, 0, k
  {
    if k == 0 then []
    else
      var e := m.entries[k - 1];
      FieldsWrites(m, v, k - 1) + Writes(e.child, FieldAt(v, e.offset))
  }

  /** The value of the last capture into `c`, if any: only the most recent
      one survives. */
  ghost function LastWrite(ws: seq<(Capturer, Value)>, c: Capturer): Option<Value>
  {
    if ws == [] then None
    else if ws[|ws| - 1].0 == c then Some(ws[|ws| - 1].1)
    else LastWrite(ws[..|ws| - 1], c)
  }

  /** What the capture callback may return for the matched value `x`. The two
      ready-made callbacks copy the value into fresh storage, or return NULL
      when that allocation fails. */
  ghost predicate CaptureOutcome(fn: CaptureFn, test: TestRef, x: Value, r: Option<Value>)
  {
    match fn
    case CaptureIntFn => r == None || r == Some(Scalar(ScalarOf(x)))
    case CapturePtrFn => r == None || r == Some(Scalar(ScalarOf(x)))
    case Custom(f) => r == f(test, x)
  }

  /** A slot that held `before` holds `after` once the captures `last` says
      reached it are done. */
  ghost predicate Settled(fn: CaptureFn, test: TestRef, last: Option<Value>, before: Option<Value>, after: Option<Value>)
  {
    match last
    case None => after == before
    case Some(x) => CaptureOutcome(fn, test, x, after)
  }

  /** The C types the matcher reads the value at: what the mock's caller must
      hand it. */
  predicate Conforms(m: Matcher, v: Value)
    decreases m
  {
    match m
    case Any => true
    case Rel(k, _, e) => v.Scalar? && InRange(k, v.n) && InRange(k, e)
    case MemEq(e, n) => v.Bytes? && n <= |v.data| && n <= |e|
    case StrEq(e) => v.Str? && '\0' !in v.text && '\0' !in e
    case StrContains(e) => v.Str? && '\0' !in v.text && '\0' !in e
    case Struct(_, es) =>
      v.Record? && Terminated(es) &&
      forall i :: 0 <= i < LiveCount(es) ==>
        es[i].offset in v.fields && Conforms(es[i].child, v.fields[es[i].offset])
    case Capture(c, ch) => ch == c.child && Conforms(ch, v) && CaptureFits(c.capture, v)
  }

  predicate CaptureFits(fn: CaptureFn, v: Value)
  {
    match fn
    case CaptureIntFn => v.Scalar? && InRange(Int, v.n)
    case CapturePtrFn => v.Scalar? && InRange(Ptr, v.n)
    case Custom(_) => true
  }

  // ---------------------------------------------------------------------
  // Lemmas the matching code rests on

  lemma {:induction false} LastWriteAppend(w1: seq<(Capturer, Value)>, w2: seq<(Capturer, Value)>, c: Capturer)
    ensures LastWrite(w1 + w2, c) == if LastWrite(w2, c).Some? then LastWrite(w2, c) else LastWrite(w1, c)
    decreases |w2|
  {
    if w2 != [] {
      assert (w1 + w2)[..|w1 + w2| - 1] == w1 + w2[..|w2| - 1];
      LastWriteAppend(w1, w2[..|w2| - 1], c);
    } else {
      assert w1 + w2 == w1;
    }
  }

  /** A match only captures into capturers it contains. */
  lemma {:induction false} WritesWithin(m: Matcher, v: Value, c: Capturer)
    requires c !in Capturers(m)
    ensures LastWrite(Writes(m, v), c) == None
    decreases m, 1
  {
    match m
    case Struct(_, es) =>
      FieldsWritesWithin(m, v, LiveCount(es), c);
    case Capture(d, ch) =>
      WritesWithin(ch, v, c);
      LastWriteAppend(Writes(ch, v), if Verdict(ch, v) then [(d, v)] else [], c);
    case _ =>
  }

  lemma {:induction false} FieldsWritesWithin(m: Matcher, v: Value, k: nat, c: Capturer)
    requires m.Struct? && k <= LiveCount(m.entries)
    requires c !in FieldsCapturers(m, k)
    ensures LastWrite(FieldsWrites(m, v, k), c) == None
    decreases m, 0, k
  {
    if k > 0 {
      var e := m.entries[k - 1];
      FieldsWritesWithin(m, v, k - 1, c);
      WritesWithin(e.child, FieldAt(v, e.offset), c);
      LastWriteAppend(FieldsWrites(m, v, k - 1), Writes(e.child, FieldAt(v, e.offset)), c);
    }
  }

  /** Captures into one slot, in two batches, compose. */
  lemma SettledStep(fn: CaptureFn, test: TestRef, first: Option<Value>, second: Option<Value>,
                    before: Option<Value>, mid: Option<Value>, after: Option<Value>)
    requires Settled(fn, test, first, before, mid)
    requires Settled(fn, test, second, mid, after)
    ensures Settled(fn, test, if second.Some? then second else first, before, after)
  {
  }

  lemma {:induction false} FieldCapturersIncluded(m: Matcher, i: nat, k: nat)
    requires m.Struct? && i < k <= LiveCount(m.entries)
    ensures Capturers(m.entries[i].child) <= FieldsCapturers(m, k)
    decreases k
  {
    if i < k - 1 {
      FieldCapturersIncluded(m, i, k - 1);
    }
  }

  /** A capturer records the matched value exactly when its child matched:
      the last capture into it is that value on a match and there is none
      otherwise. */
  lemma CaptureOnlyOnMatch(c: Capturer, ch: Matcher, v: Value)
    requires c !in Capturers(ch)
    ensures LastWrite(Writes(Capture(c, ch), v), c) == if Verdict(ch, v) then Some(v) else None
  {
    WritesWithin(ch, v, c);
    LastWriteAppend(Writes(ch, v), if Verdict(ch, v) then [(c, v)] else [], c);
  }

  // ---------------------------------------------------------------------
  // The matchers' `match` operations

  /** `pmatcher->match(pmatcher, stream, actual)`, for every matcher. */
  method Match(m: Matcher, actual: Value, stream: Stream) returns (r: bool)
    requires Conforms(m, actual)
    modifies stream, Capturers(m)
    ensures r == Verdict(m, actual)
    ensures stream.text == old(stream.text) + Trace(m, actual)
    ensures forall c :: c in Capturers(m) && old(allocated(c)) ==>
      Settled(c.capture, stream.test, LastWrite(Writes(m, actual), c), old(c.captured), c.captured)
    decreases m, 1
  {
    match m
    case Any =>
      r := MatchAny(stream);
    case Rel(k, op, e) =>
      r := MatchRel(k, op, e, actual.n, stream);
    case MemEq(e, n) =>
      r := MatchMemEq(e, n, actual.data, stream);
    case StrEq(e) =>
      r := MatchStrEq(e, actual.text, stream);
    case StrContains(nd) =>
      r := MatchStrContains(nd, actual.text, stream);
    case Struct(_, _) =>
      r := MatchStruct(m, actual, stream);
    case Capture(c, ch) =>
      r := MatchAndCapture(m, actual, stream);
  }

  /** `match_any`: accepts whatever it is given. */
  method MatchAny(stream: Stream) returns (r: bool)
    modifies stream
    ensures r
    ensures stream.text == old(stream.text) + "don't care"
  {
    stream.Add("don't care");
    r := true;
  }

  /** `match_<type>_<op>`: the relation between two values of the kind, and
      the trace `CMP_FORMAT` builds for the outcome. */
  method MatchRel(k: Kind, op: Op, expected: int, actual: int, stream: Stream) returns (r: bool)
    requires InRange(k, expected) && InRange(k, actual)
    modifies stream
    ensures r == Holds(op, actual, expected)
    ensures stream.text == old(stream.text) + RelTrace(k, op, actual, expected)
  {
    r := Holds(op, actual, expected);
    if r {
      stream.Add(Show(k, actual) + " " + Token(op) + " " + Show(k, expected));
    } else {
      stream.Add(Show(k, actual) + " not " + Token(op) + " " + Show(k, expected));
    }
  }

  /** `match_streq`. */
  method MatchStrEq(expected: string, actual: string, stream: Stream) returns (r: bool)
    modifies stream
    ensures r == (actual == expected)
    ensures stream.text == old(stream.text) + StrEqTrace(actual, expected)
  {
    r := actual == expected;
    if r {
      stream.Add(actual + " == " + expected);
    } else {
      stream.Add(actual + " != " + expected);
    }
  }

  /** `match_str_contains`: accepts exactly the haystacks the needle occurs
      in. */
  method MatchStrContains(needle: string, haystack: string, stream: Stream) returns (r: bool)
    modifies stream
    ensures r <==> Contains(haystack, needle)
    ensures stream.text == old(stream.text) + StrContainsTrace(needle, haystack)
  {
    StrStrFindsExactly(haystack, needle);
    r := StrStr(haystack, needle).Some?;
    if r {
      stream.Add("'" + needle + "' found in '" + haystack + "'");
    } else {
      stream.Add("'" + needle + "' not found in '" + haystack + "'");
    }
  }

  /** `match_memeq`: compares the first `size` bytes, then dumps all of them
      from both buffers whatever the outcome. */
  method MatchMemEq(expected: seq<byte>, size: nat, actual: seq<byte>, stream: Stream) returns (r: bool)
    requires size <= |expected| && size <= |actual|
    modifies stream
    ensures r == (actual[..size] == expected[..size])
    ensures stream.text == old(stream.text) + MemEqTrace(actual[..size], expected[..size])
  {
    r := actual[..size] == expected[..size];
    DumpBytes(actual, size, stream);
    if r {
      stream.Add("== ");
    } else {
      stream.Add("!= ");
    }
    DumpBytes(expected, size, stream);
  }

  /** One of `match_memeq`'s loops: a `"%02x, "` cell for each of the first
      `size` bytes. */
  method DumpBytes(buf: seq<byte>, size: nat, stream: Stream)
    requires size <= |buf|
    modifies stream
    ensures stream.text == old(stream.text) + HexDump(buf[..size])
  {
    ghost var t0 := stream.text;
    var i := 0;
    while i < size
      invariant 0 <= i <= size
      invariant stream.text == t0 + HexDump(buf[..i])
    {
      ghost var done := buf[..i];
      var cell := ByteCell(buf[i]);
      stream.Add(cell);
      HexDumpAppend(done, buf[i]);
      assert buf[..i + 1] == done + [buf[i]];
      AssocThree(t0, HexDump(done), cell);
      i := i + 1;
    }
  }

  /** `match_struct`: every entry up to the sentinel is matched against the
      member at its offset, even after an earlier one failed, and the
      verdicts are ANDed. */
  method MatchStruct(m: Matcher, actual: Value, stream: Stream) returns (r: bool)
    requires m.Struct? && Conforms(m, actual)
    modifies stream, Capturers(m)
    ensures r == Verdict(m, actual)
    ensures stream.text == old(stream.text) + Trace(m, actual)
    ensures forall c :: c in Capturers(m) && old(allocated(c)) ==>
      Settled(c.capture, stream.test, LastWrite(Writes(m, actual), c), old(c.captured), c.captured)
    decreases m, 0
  {
    var es := m.entries;
    var live := LiveCount(es);
    ghost var t0 := stream.text;
    stream.Add("struct " + m.name + " {");
    ghost var t1 := stream.text;
    r := true;
    var i := 0;
    while es[i].Field?
      invariant 0 <= i <= live
      invariant r == FieldsVerdict(m, actual, i)
      invariant stream.text == t1 + FieldsTrace(m, actual, i)
      invariant forall c :: c in Capturers(m) && old(allocated(c)) ==>
        Settled(c.capture, stream.test, LastWrite(FieldsWrites(m, actual, i), c), old(c.captured), c.captured)
      decreases live - i
    {
      var child := es[i].child;
      var member := FieldAt(actual, es[i].offset);
      FieldCapturersIncluded(m, i, live);
      ghost var w, wc := FieldsWrites(m, actual, i), Writes(child, member);
      label Pre:
      var tmp := MatchEntry(m, actual, i, stream);
      r := r && tmp;
      Assoc(t1, FieldsTrace(m, actual, i), Trace(child, member), ", ");
      forall c | c in Capturers(m) && old(allocated(c))
        ensures Settled(c.capture, stream.test, LastWrite(w + wc, c), old(c.captured), c.captured)
      {
        LastWriteAppend(w, wc, c);
        if c in Capturers(child) {
          SettledStep(c.capture, stream.test, LastWrite(w, c), LastWrite(wc, c),
                      old(c.captured), old@Pre(c.captured), c.captured);
        } else {
          WritesWithin(child, member, c);
        }
      }
      i := i + 1;
    }
    stream.Add("}");
    Assoc(t0, "struct " + m.name + " {", FieldsTrace(m, actual, live), "}");
  }

  /** One pass of `match_struct`'s loop: entry `i`'s child matched against
      the member at its offset, then the separator. */
  method MatchEntry(m: Matcher, actual: Value, i: nat, stream: Stream) returns (r: bool)
    requires m.Struct? && Conforms(m, actual) && i < LiveCount(m.entries)
    modifies stream, Capturers(m.entries[i].child)
    ensures var e := m.entries[i]; r == Verdict(e.child, FieldAt(actual, e.offset))
    ensures var e := m.entries[i];
      stream.text == old(stream.text) + Trace(e.child, FieldAt(actual, e.offset)) + ", "
    ensures var e := m.entries[i];
      forall c :: c in Capturers(e.child) && old(allocated(c)) ==>
        Settled(c.capture, stream.test, LastWrite(Writes(e.child, FieldAt(actual, e.offset)), c), old(c.captured), c.captured)
    decreases m, 0, i
  {
    var e := m.entries[i];
    r := Match(e.child, FieldAt(actual, e.offset), stream);
    stream.Add(", ");
  }

  /** `match_and_capture_param`: the child's verdict and trace; when the
      child matched, the slot is overwritten with what the callback returns. */
  method MatchAndCapture(m: Matcher, actual: Value, stream: Stream) returns (r: bool)
    requires m.Capture? && Conforms(m, actual)
    modifies stream, Capturers(m)
    ensures r == Verdict(m, actual)
    ensures stream.text == old(stream.text) + Trace(m, actual)
    ensures forall c :: c in Capturers(m) && old(allocated(c)) ==>
      Settled(c.capture, stream.test, LastWrite(Writes(m, actual), c), old(c.captured), c.captured)
    decreases m, 0
  {
    var c, ch := m.capturer, m.child;
    ghost var w := Writes(ch, actual);
    r := Match(ch, actual, stream);
    if r {
      var got := CaptureValue(c.capture, stream.test, actual);
      c.captured := got;
      forall d | d in Capturers(m) && old(allocated(d))
        ensures Settled(d.capture, stream.test, LastWrite(w + [(c, actual)], d), old(d.captured), d.captured)
      {
        assert (w + [(c, actual)])[..|w|] == w;
      }
    } else {
      forall d | d in Capturers(m) && old(allocated(d))
        ensures Settled(d.capture, stream.test, LastWrite(w, d), old(d.captured), d.captured)
      {
        if d !in Capturers(ch) {
          WritesWithin(ch, actual, d);
        }
      }
      assert w + [] == w;
    }
  }

  /** A capturer handed to the mock on its own: the child's verdict and
      trace, and the slot overwritten with the callback's result on a match
      and left alone otherwise. A capturer is built after its child, so it
      never occurs inside its own child. */
  method MatchCapturer(c: Capturer, actual: Value, stream: Stream) returns (r: bool)
    requires Conforms(c.AsMatcher(), actual) && c !in Capturers(c.child)
    modifies stream, c, Capturers(c.child)
    ensures r == Verdict(c.child, actual)
    ensures stream.text == old(stream.text) + Trace(c.child, actual)
    ensures r ==> CaptureOutcome(c.capture, stream.test, actual, c.captured)
    ensures !r ==> c.captured == old(c.captured)
    ensures forall d :: d in Capturers(c.child) && old(allocated(d)) ==>
      Settled(d.capture, stream.test, LastWrite(Writes(c.child, actual), d), old(d.captured), d.captured)
  {
    var m := c.AsMatcher();
    ghost var w, tail := Writes(c.child, actual), if Verdict(c.child, actual) then [(c, actual)] else [];
    r := Match(m, actual, stream);
    CaptureOnlyOnMatch(c, c.child, actual);
    forall d | d in Capturers(c.child) && old(allocated(d))
      ensures Settled(d.capture, stream.test, LastWrite(w, d), old(d.captured), d.captured)
    {
      LastWriteAppend(w, tail, d);
    }
  }

  /** Calls the capturer's callback on the matched value. */
  method CaptureValue(fn: CaptureFn, test: TestRef, actual: Value) returns (r: Option<Value>)
    requires CaptureFits(fn, actual)
    ensures CaptureOutcome(fn, test, actual, r)
  {
    match fn
    case CaptureIntFn =>
      r := CaptureInt(actual.n);
    case CapturePtrFn =>
      r := CapturePtr(actual.n);
    case Custom(f) =>
      r := f(test, actual);
  }

  /** `mock_capture_int`: a copy of the int in fresh storage, or NULL when
      that allocation fails. */
  method CaptureInt(value: int) returns (r: Option<Value>)
    requires InRange(Int, value)
    ensures r == None || r == Some(Scalar(value))
  {
    var ok := Alloc();
    if !ok {
      return None;
    }
    r := Some(Scalar(value));
  }

  /** What `mock_capture_ptr` is meant to return, given whether its
      allocation succeeded: a copy of the pointer in the fresh storage, or
      NULL. */
  function CapturedPtr(ptr: int, gotStorage: bool): (r: Option<Value>)
    ensures r.Some? <==> gotStorage
    ensures r.Some? ==> r.value == Scalar(ptr)
  {
    if gotStorage then Some(Scalar(ptr)) else None
  }

  /** `mock_capture_ptr` as it is meant to behave; `CapturePtrAsWrittenVsCorrected`
      relates it to the code as written. */
  method CapturePtr(ptr: int) returns (r: Option<Value>)
    requires InRange(Ptr, ptr)
    ensures r == None || r == Some(Scalar(ptr))
  {
    var ok := Alloc();
    r := CapturedPtr(ptr, ok);
  }

  /** What the body of `mock_capture_ptr` does as written, given whether
      its allocation succeeded: the pointer is stored through the returned
      storage without a NULL check. */
  datatype PtrStore = Stored(slot: Value) | NullWrite

  function CapturePtrAsWritten(ptr: int, gotStorage: bool): (r: PtrStore)
    ensures r.Stored? <==> gotStorage
    ensures r.Stored? ==> r.slot == Scalar(ptr)
  {
    if gotStorage then Stored(Scalar(ptr)) else NullWrite
  }

  /** On either allocation outcome the code as written stores exactly what
      the corrected capture returns, and it writes through NULL exactly where
      the corrected capture returns NULL. */
  lemma CapturePtrAsWrittenVsCorrected(ptr: int, gotStorage: bool)
    ensures CapturePtrAsWritten(ptr, gotStorage).Stored? ==>
      CapturedPtr(ptr, gotStorage) == Some(CapturePtrAsWritten(ptr, gotStorage).slot)
    ensures CapturePtrAsWritten(ptr, gotStorage) == NullWrite <==> CapturedPtr(ptr, gotStorage) == None
  {
  }

  /** A failed allocation makes the code as written write through NULL,
      where the corrected capture returns NULL. */
  lemma CapturePtrAsWrittenFaults(ptr: int)
    ensures CapturePtrAsWritten(ptr, false) == NullWrite
    ensures CapturedPtr(ptr, false) == None
  {
  }

  // ---------------------------------------------------------------------
  // Factories

  /** `kunit_any`: the one shared wildcard matcher, which needs no
      allocation. */
  function KunitAny(): (m: Matcher)
    ensures forall v :: Verdict(m, v) && Trace(m, v) == "don't care"
    ensures Capturers(m) == {} && forall v :: Writes(m, v) == []
  {
    Any
  }

  /** `kunit_<type>_<op>`: a relational matcher holding `expected`, or NULL
      when the allocation fails. */
  method NewRel(k: Kind, op: Op, expected: int) returns (r: Option<Matcher>)
    requires InRange(k, expected)
    ensures r == None || r == Some(Rel(k, op, expected))
  {
    var ok := Alloc();
    if !ok {
      return None;
    }
    r := Some(Rel(k, op, expected));
  }

  /** `kunit_memeq`: keeps the buffer and the size unchanged. */
  method NewMemEq(buf: seq<byte>, size: nat) returns (r: Option<Matcher>)
    ensures r == None || r == Some(MemEq(buf, size))
  {
    var ok := Alloc();
    if !ok {
      return None;
    }
    r := Some(MemEq(buf, size));
  }

  /** `kunit_streq`. */
  method NewStrEq(str: string) returns (r: Option<Matcher>)
    ensures r == None || r == Some(StrEq(str))
  {
    var ok := Alloc();
    if !ok {
      return None;
    }
    r := Some(StrEq(str));
  }

  /** `kunit_str_contains`. */
  method NewStrContains(str: string) returns (r: Option<Matcher>)
    ensures r == None || r == Some(StrContains(str))
  {
    var ok := Alloc();
    if !ok {
      return None;
    }
    r := Some(StrContains(str));
  }

  /** `kunit_struct_cmp`: keeps the name and the caller's entry array. */
  method NewStruct(name: string, entries: seq<Entry<Matcher>>) returns (r: Option<Matcher>)
    ensures r == None || r == Some(Struct(name, entries))
  {
    var ok := Alloc();
    if !ok {
      return None;
    }
    r := Some(Struct(name, entries));
  }

  /** Where `struct va_format` keeps `fmt` and `va` (a pointer each, on a
      64-bit target). */
  const FmtOffset: nat := 0
  const VaOffset: nat := 8

  /** `kunit_va_format_cmp`: a three-entry array (the two members and the
      sentinel) handed to the struct matcher named `va_format`; either
      allocation may fail. The children are not checked: a NULL one (a
      factory that failed, say) ends the array at its entry. */
  method VaFormatCmp(fmtMatcher: Option<Matcher>, vaMatcher: Option<Matcher>) returns (r: Option<Matcher>)
    ensures r == None ||
      r == Some(Struct("va_format", [EntryOf(FmtOffset, fmtMatcher), EntryOf(VaOffset, vaMatcher), Last]))
  {
    var ok := Alloc();
    if !ok {
      return None;
    }
    var entries := [EntryOf(FmtOffset, fmtMatcher), EntryOf(VaOffset, vaMatcher), Last];
    r := NewStruct("va_format", entries);
  }

  /** `mock_param_capturer_create`: a fresh capturer with an empty slot, or
      NULL when the allocation fails. */
  method CreateCapturer(child: Matcher, capture: CaptureFn) returns (r: Option<Capturer>)
    ensures r.Some? ==> fresh(r.value) && r.value.child == child && r.value.capture == capture
    ensures r.Some? ==> r.value.captured == None
  {
    var ok := Alloc();
    if !ok {
      return None;
    }
    var c := new Capturer(child, capture);
    r := Some(c);
  }

  /** `mock_int_capturer_create`. */
  method IntCapturerCreate(child: Matcher) returns (r: Option<Capturer>)
    ensures r.Some? ==> fresh(r.value) && r.value.child == child && r.value.capture == CaptureIntFn
    ensures r.Some? ==> r.value.captured == None
  {
    r := CreateCapturer(child, CaptureIntFn);
  }

  /** `mock_ptr_capturer_create`. */
  method PtrCapturerCreate(child: Matcher) returns (r: Option<Capturer>)
    ensures r.Some? ==> fresh(r.value) && r.value.child == child && r.value.capture == CapturePtrFn
    ensures r.Some? ==> r.value.captured == None
  {
    r := CreateCapturer(child, CapturePtrFn);
  }
}
