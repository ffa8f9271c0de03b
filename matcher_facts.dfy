/** What the matchers promise, stated against independent descriptions of
    their verdicts and traces: a trace can be read back into the values it
    compares, a struct match is the conjunction over its live entries and
    writes every child's trace, and the entries after the sentinel do not
    matter. */
module MatcherFacts {
  import opened Wrappers
  import opened Kinds
  import opened Values
  import opened Render
  import opened Entries
  import opened Matchers
  import opened Kunit

  // ---------------------------------------------------------------------
  // Relational matchers

  /** Each operator is written starting with one of `=!<>`, never `n`. */
  lemma TokenStart(op: Op)
    ensures |Token(op)| >= 1 && Token(op)[0] != 'n'
  {
  }

  /** Where the first blank of `s` is (`|s|` when there is none). */
  function FirstBlank(s: string): (i: nat)
    ensures i <= |s|
  {
    if s == [] || s[0] == ' ' then 0 else 1 + FirstBlank(s[1..])
  }

  lemma {:induction false} FirstBlankAfter(p: string, q: string)
    requires NoBlank(p)
    ensures FirstBlank(p + " " + q) == |p|
  {
    if p != [] {
      assert (p + " " + q)[1..] == p[1..] + " " + q;
      FirstBlankAfter(p[1..], q);
    }
  }

  lemma SplitAtBlank(p: string, q: string, p2: string, q2: string)
    requires NoBlank(p) && NoBlank(p2)
    requires p + " " + q == p2 + " " + q2
    ensures p == p2 && q == q2
  {
    var t := p + " " + q;
    FirstBlankAfter(p, q);
    FirstBlankAfter(p2, q2);
    assert p == t[..|p|];
    assert p2 == t[..|p2|];
    assert q == t[|p| + 1..];
    assert q2 == (p2 + " " + q2)[|p2| + 1..];
  }

  /** The middle of a relational trace: the operator, with `" not"` before
      it when the relation fails. */
  function RelMiddle(op: Op, holds: bool): (s: string)
    ensures |s| >= 3 && s[0] == ' '
    ensures s[1] == 'n' <==> !holds
  {
    TokenStart(op);
    if holds then " " + Token(op) + " " else " not " + Token(op) + " "
  }

  lemma RelTraceParts(k: Kind, op: Op, a: int, e: int)
    ensures RelTrace(k, op, a, e) == Show(k, a) + RelMiddle(op, Holds(op, a, e)) + Show(k, e)
  {
  }

  lemma SameLengthSplit(x: string, r: string, x2: string, r2: string)
    requires x + r == x2 + r2 && |x| == |x2|
    ensures x == x2 && r == r2
  {
    assert x == (x + r)[..|x|] && r == (x + r)[|x|..];
    assert x2 == (x2 + r2)[..|x2|] && r2 == (x2 + r2)[|x2|..];
  }

  /** Reading `x + mid + y` back, when the first part is one character or
      has no blank, and the middle is one of two texts that differ in their
      second character (which follows a blank). */
  lemma ReadBack(x: string, mid: string, y: string, x2: string, mid2: string, y2: string, yes: string, no: string)
    requires x + mid + y == x2 + mid2 + y2
    requires (|x| == 1 && |x2| == 1) || (NoBlank(x) && NoBlank(x2))
    requires |yes| >= 2 && |no| >= 2 && yes[0] == ' ' && no[0] == ' ' && yes[1] != no[1]
    requires (mid == yes || mid == no) && (mid2 == yes || mid2 == no)
    ensures x == x2 && mid == mid2 && y == y2
  {
    assert x + mid + y == x + (mid + y) && x2 + mid2 + y2 == x2 + (mid2 + y2);
    if |x| == 1 && |x2| == 1 {
      SameLengthSplit(x, mid + y, x2, mid2 + y2);
    } else {
      assert mid == " " + mid[1..] && mid2 == " " + mid2[1..];
      assert x + mid + y == x + " " + (mid[1..] + y);
      assert x2 + mid2 + y2 == x2 + " " + (mid2[1..] + y2);
      SplitAtBlank(x, mid[1..] + y, x2, mid2[1..] + y2);
    }
    SameLengthSplit(x, mid + y, x2, mid2 + y2);
    assert (mid + y)[1] == mid[1] && (mid2 + y2)[1] == mid2[1];
    SameLengthSplit(mid, y, mid2, y2);
  }

  /** A relational trace is read back unambiguously: it names the actual and
      the expected value, and so the verdict too. */
  lemma RelTraceDetermines(k: Kind, op: Op, a: int, e: int, a2: int, e2: int)
    requires InRange(k, a) && InRange(k, e) && InRange(k, a2) && InRange(k, e2)
    requires RelTrace(k, op, a, e) == RelTrace(k, op, a2, e2)
    ensures a == a2 && e == e2
  {
    var x, mid, y := Show(k, a), RelMiddle(op, Holds(op, a, e)), Show(k, e);
    var x2, mid2, y2 := Show(k, a2), RelMiddle(op, Holds(op, a2, e2)), Show(k, e2);
    RelTraceParts(k, op, a, e);
    RelTraceParts(k, op, a2, e2);
    ReadBack(x, mid, y, x2, mid2, y2, RelMiddle(op, true), RelMiddle(op, false));
    ShowInjective(k, a, a2);
    ShowInjective(k, e, e2);
  }

  /** The trace says `not` right after the actual value exactly when the
      relation fails. */
  lemma RelTraceMarksFailure(k: Kind, op: Op, a: int, e: int)
    ensures RelTrace(k, op, a, e)[|Show(k, a)| + 1] == 'n' <==> !Holds(op, a, e)
    ensures !Holds(op, a, e) ==> RelTrace(k, op, a, e)[|Show(k, a)|..|Show(k, a)| + 5] == " not "
  {
    var x, mid := Show(k, a), RelMiddle(op, Holds(op, a, e));
    RelTraceParts(k, op, a, e);
    assert (x + mid + Show(k, e))[|x| + 1] == mid[1];
    if !Holds(op, a, e) {
      assert mid == " not " + Token(op) + " ";
      assert (x + mid + Show(k, e))[|x|..|x| + 5] == mid[..5];
    }
  }

  /** `!=` is the negation of `==`, `<` of `>=` and `>` of `<=`. */
  lemma RelComplements(k: Kind, e: int, v: Value)
    ensures Verdict(Rel(k, Ne, e), v) == !Verdict(Rel(k, Eq, e), v)
    ensures Verdict(Rel(k, Lt, e), v) == !Verdict(Rel(k, Ge, e), v)
    ensures Verdict(Rel(k, Gt, e), v) == !Verdict(Rel(k, Le, e), v)
  {
  }

  // ---------------------------------------------------------------------
  // memeq

  /** Reads a memeq trace of `n`-byte buffers back into the actual bytes,
      the verdict and the expected bytes. */
  function ParseMemEqTrace(t: string, n: nat): Option<(seq<byte>, bool, seq<byte>)>
  {
    if |t| != 8 * n + 3 then None
    else
      var sep := t[4 * n..4 * n + 3];
      var a := ParseHexDump(t[..4 * n]);
      var e := ParseHexDump(t[4 * n + 3..]);
      if a.None? || e.None? || (sep != "== " && sep != "!= ") then None
      else Some((a.value, sep == "== ", e.value))
  }

  /** A memeq trace has a fixed length and gives back both buffers and
      whether they were equal. */
  lemma MemEqTraceRoundTrip(a: seq<byte>, e: seq<byte>)
    requires |a| == |e|
    ensures |MemEqTrace(a, e)| == 8 * |a| + 3
    ensures ParseMemEqTrace(MemEqTrace(a, e), |a|) == Some((a, a == e, e))
  {
    var n := |a|;
    var sep := if a == e then "== " else "!= ";
    var t := MemEqTrace(a, e);
    assert t == HexDump(a) + sep + HexDump(e);
    assert t[..4 * n] == HexDump(a);
    assert t[4 * n..4 * n + 3] == sep;
    assert t[4 * n + 3..] == HexDump(e);
    HexDumpRoundTrip(a);
    HexDumpRoundTrip(e);
  }

  /** What a memeq matcher over `size` bytes writes can be read back into
      the first `size` bytes of both buffers and the verdict. */
  lemma MemEqMatchDecodes(buf: seq<byte>, size: nat, v: Value)
    requires Conforms(MemEq(buf, size), v)
    ensures Verdict(MemEq(buf, size), v) <==> v.data[..size] == buf[..size]
    ensures ParseMemEqTrace(Trace(MemEq(buf, size), v), size) ==
      Some((v.data[..size], Verdict(MemEq(buf, size), v), buf[..size]))
  {
    MemEqTraceRoundTrip(v.data[..size], buf[..size]);
  }

  // ---------------------------------------------------------------------
  // streq and str_contains

  /** A streq trace is the actual string, `" == "` exactly when the strings
      are equal (`" != "` otherwise), then the expected string. */
  lemma StrEqTraceParts(a: string, e: string)
    ensures var t := StrEqTrace(a, e);
      |t| == |a| + 4 + |e| && t[..|a|] == a && t[|a| + 4..] == e &&
      (t[|a|..|a| + 4] == " == " <==> a == e) &&
      (a != e ==> t[|a|..|a| + 4] == " != ")
  {
    var sep := if a == e then " == " else " != ";
    assert StrEqTrace(a, e) == a + sep + e;
  }

  /** An empty needle is found in every haystack. */
  lemma EmptyNeedleMatches(haystack: string)
    ensures Verdict(StrContains(""), Str(haystack))
    ensures Trace(StrContains(""), Str(haystack)) == "'' found in '" + haystack + "'"
  {
    assert OccursAt(haystack, "", 0);
    assert StrStr(haystack, "") == Some(0);
    assert "'" + "" + "' found in '" == "'' found in '";
  }

  /** str_contains accepts exactly the haystacks the needle occurs in. */
  lemma StrContainsMatch(needle: string, haystack: string)
    ensures Verdict(StrContains(needle), Str(haystack)) <==> Contains(haystack, needle)
  {
    StrStrFindsExactly(haystack, needle);
  }

  // ---------------------------------------------------------------------
  // Struct matcher

  /** The traces of the live children, in entry order. */
  function ChildTraces(m: Matcher, v: Value): (ts: seq<string>)
    requires m.Struct?
    ensures |ts| == LiveCount(m.entries)
  {
    var es := m.entries;
    seq(LiveCount(es), i requires 0 <= i < LiveCount(es) => Trace(es[i].child, FieldAt(v, es[i].offset)))
  }

  lemma {:induction false} FieldsVerdictAll(m: Matcher, v: Value, k: nat)
    requires m.Struct? && k <= LiveCount(m.entries)
    ensures FieldsVerdict(m, v, k) <==>
      forall i :: 0 <= i < k ==> Verdict(m.entries[i].child, FieldAt(v, m.entries[i].offset))
  {
    if k > 0 {
      FieldsVerdictAll(m, v, k - 1);
    }
  }

  /** A struct matches exactly when every entry before the sentinel matches
      its member. */
  lemma StructVerdictAll(m: Matcher, v: Value)
    requires m.Struct?
    ensures Verdict(m, v) <==>
      forall i :: 0 <= i < LiveCount(m.entries) ==> Verdict(m.entries[i].child, FieldAt(v, m.entries[i].offset))
  {
    FieldsVerdictAll(m, v, LiveCount(m.entries));
  }

  lemma {:induction false} FieldsTraceJoined(m: Matcher, v: Value, k: nat)
    requires m.Struct? && k <= LiveCount(m.entries)
    ensures FieldsTrace(m, v, k) == Joined(ChildTraces(m, v)[..k])
  {
    if k > 0 {
      var ts := ChildTraces(m, v);
      FieldsTraceJoined(m, v, k - 1);
      assert ts[..k] == ts[..k - 1] + [ts[k - 1]];
      JoinedAppend(ts[..k - 1], ts[k - 1]);
    }
  }

  /** A struct trace names the struct and then holds every live child's
      trace, in order, each followed by `", "`: no child is skipped, whatever
      the verdicts of the ones before it. */
  lemma StructTraceShape(m: Matcher, v: Value)
    requires m.Struct?
    ensures Trace(m, v) == "struct " + m.name + " {" + Joined(ChildTraces(m, v)) + "}"
  {
    var ts := ChildTraces(m, v);
    FieldsTraceJoined(m, v, LiveCount(m.entries));
    assert ts[..LiveCount(m.entries)] == ts;
  }

  /** Entries after the first sentinel change neither the verdict nor the
      trace. */
  lemma StructIgnoresTail(name: string, es: seq<Entry<Matcher>>, tail: seq<Entry<Matcher>>, v: Value)
    requires Terminated(es)
    ensures Verdict(Struct(name, es + tail), v) == Verdict(Struct(name, es), v)
    ensures Trace(Struct(name, es + tail), v) == Trace(Struct(name, es), v)
  {
    var m1, m2 := Struct(name, es + tail), Struct(name, es);
    var k := LiveCount(es);
    LiveCountIgnoresTail(es, tail);
    assert forall i :: 0 <= i < k ==> (es + tail)[i] == es[i];
    StructVerdictAll(m1, v);
    StructVerdictAll(m2, v);
    StructTraceShape(m1, v);
    StructTraceShape(m2, v);
    assert ChildTraces(m1, v) == ChildTraces(m2, v);
  }

  // ---------------------------------------------------------------------
  // Worked examples

  /** `kunit_int_eq(test, 42)` against 42, and against 7. */
  lemma IntEqExamples()
    ensures Verdict(Rel(Int, Eq, 42), Scalar(42)) && Trace(Rel(Int, Eq, 42), Scalar(42)) == "42 == 42"
    ensures !Verdict(Rel(Int, Eq, 42), Scalar(7)) && Trace(Rel(Int, Eq, 42), Scalar(7)) == "7 not == 42"
  {
    assert NatToDecimal(42) == "42";
    assert NatToDecimal(7) == "7";
  }

  lemma CellExample(b: byte)
    requires b < 10
    ensures ByteCell(b) == ['0', HexDigit(b as nat), ',', ' ']
  {
    DivMod16(b as nat, 0, b as nat);
    assert HexFixed(b as nat, 2) == HexFixed(0, 1) + [HexDigit(b as nat)];
    assert HexFixed(0, 1) == HexFixed(0, 0) + ['0'];
  }

  lemma DumpTwo(x: byte, y: byte)
    ensures HexDump([x, y]) == ByteCell(x) + ByteCell(y)
  {
    var s := [x, y];
    assert s[1..] == [y] && s[1..][1..] == [];
  }

  /** `kunit_memeq` over two bytes that differ in the second. */
  lemma MemEqExample(a: seq<byte>, e: seq<byte>)
    requires a == [1, 2] && e == [1, 3]
    ensures !Verdict(MemEq(e, 2), Bytes(a))
    ensures Trace(MemEq(e, 2), Bytes(a)) == "01, " + "02, " + "!= " + "01, " + "03, "
  {
    assert Take(a, 2) == a && Take(e, 2) == e;
    assert a != e by {
      assert a[1] != e[1];
    }
    assert Trace(MemEq(e, 2), Bytes(a)) == HexDump(a) + "!= " + HexDump(e);
    CellExample(1);
    CellExample(2);
    CellExample(3);
    assert ByteCell(1) == "01, " && ByteCell(2) == "02, " && ByteCell(3) == "03, ";
    DumpTwo(1, 2);
    DumpTwo(1, 3);
  }

  lemma SmallIntEq(a: nat, e: nat)
    requires a < 10 && e < 10
    ensures Trace(Rel(Int, Eq, e), Scalar(a)) ==
      [DecimalDigit(a)] + (if a == e then " == " else " not == ") + [DecimalDigit(e)]
  {
    assert Show(Int, a) == [DecimalDigit(a)] && Show(Int, e) == [DecimalDigit(e)];
  }

  lemma TwoEntries(o1: nat, c1: Matcher, o2: nat, c2: Matcher)
    ensures LiveCount([Field(o1, c1), Field(o2, c2), Last]) == 2
  {
    var es := [Field(o1, c1), Field(o2, c2), Last];
    assert es[1..] == [Field(o2, c2), Last] && es[1..][1..] == [Last];
    assert LiveCount(es[1..][1..]) == 0;
    assert LiveCount(es[1..]) == 1;
  }

  lemma JoinedTwo(t1: string, t2: string)
    ensures Joined([t1, t2]) == t1 + ", " + t2 + ", "
  {
    assert [t1, t2][1..] == [t2];
    assert [t2][1..] == [];
    assert Joined([t2]) == t2 + ", " + Joined([]);
  }

  /** A struct matcher with two live entries: the verdict is the
      conjunction of the two children's and the trace holds both child
      traces. */
  lemma TwoLive(m: Matcher, v: Value)
    requires m.Struct? && LiveCount(m.entries) == 2
    ensures var e0, e1 := m.entries[0], m.entries[1];
      (Verdict(m, v) <==> Verdict(e0.child, FieldAt(v, e0.offset)) && Verdict(e1.child, FieldAt(v, e1.offset))) &&
      Trace(m, v) == "struct " + m.name + " {" + Trace(e0.child, FieldAt(v, e0.offset)) + ", " +
        Trace(e1.child, FieldAt(v, e1.offset)) + ", }"
  {
    var e0, e1 := m.entries[0], m.entries[1];
    var t0, t1 := Trace(e0.child, FieldAt(v, e0.offset)), Trace(e1.child, FieldAt(v, e1.offset));
    StructVerdictAll(m, v);
    StructTraceShape(m, v);
    var ts := ChildTraces(m, v);
    assert ts == [t0, t1] by {
      assert |ts| == 2 && ts[0] == t0 && ts[1] == t1;
    }
    JoinedTwo(t0, t1);
  }

  /** A struct matcher over two members, such as the one
      `kunit_va_format_cmp` builds: both children are applied, the verdict is
      their conjunction and the trace holds both child traces. */
  lemma TwoFieldStruct(name: string, o1: nat, c1: Matcher, o2: nat, c2: Matcher, v: Value)
    ensures var m := Struct(name, [Field(o1, c1), Field(o2, c2), Last]);
      (Verdict(m, v) <==> Verdict(c1, FieldAt(v, o1)) && Verdict(c2, FieldAt(v, o2))) &&
      Trace(m, v) == "struct " + name + " {" + Trace(c1, FieldAt(v, o1)) + ", " + Trace(c2, FieldAt(v, o2)) + ", }"
  {
    TwoEntries(o1, c1, o2, c2);
    TwoLive(Struct(name, [Field(o1, c1), Field(o2, c2), Last]), v);
  }

  /** The `va_format` matcher over two matchers compares `fmt` and `va` and
      reports both. */
  lemma VaFormatMatch(fmtMatcher: Matcher, vaMatcher: Matcher, v: Value)
    ensures var m := Struct("va_format", [EntryOf(FmtOffset, Some(fmtMatcher)), EntryOf(VaOffset, Some(vaMatcher)), Last]);
      (Verdict(m, v) <==> Verdict(fmtMatcher, FieldAt(v, FmtOffset)) && Verdict(vaMatcher, FieldAt(v, VaOffset))) &&
      Trace(m, v) == "struct va_format {" + Trace(fmtMatcher, FieldAt(v, FmtOffset)) + ", " +
        Trace(vaMatcher, FieldAt(v, VaOffset)) + ", }"
  {
    var es := [Field(FmtOffset, fmtMatcher), Field(VaOffset, vaMatcher), Last];
    assert [EntryOf(FmtOffset, Some(fmtMatcher)), EntryOf(VaOffset, Some(vaMatcher)), Last] == es;
    var m := Struct("va_format", es);
    TwoEntries(FmtOffset, fmtMatcher, VaOffset, vaMatcher);
    TwoLive(m, v);
    assert "struct " + m.name + " {" == "struct va_format {";
  }

  /** A NULL `fmt` matcher ends the array at its first entry: whatever `va`
      is, the result accepts every value and writes an empty struct. */
  lemma VaFormatNullFmt(vaMatcher: Option<Matcher>, v: Value)
    ensures var m := Struct("va_format", [EntryOf(FmtOffset, None), EntryOf(VaOffset, vaMatcher), Last]);
      Verdict(m, v) && Trace(m, v) == "struct va_format {" + "}"
  {
    var m := Struct("va_format", [EntryOf(FmtOffset, None), EntryOf(VaOffset, vaMatcher), Last]);
    assert m.entries[0] == Last;
    assert LiveCount(m.entries) == 0;
    assert "struct " + m.name + " {" == "struct va_format {";
  }

  /** A struct matcher with one live entry: its verdict and its trace are
      that child's, inside the struct's braces. */
  lemma OneLive(m: Matcher, v: Value)
    requires m.Struct? && LiveCount(m.entries) == 1
    ensures var e := m.entries[0];
      (Verdict(m, v) <==> Verdict(e.child, FieldAt(v, e.offset))) &&
      Trace(m, v) == "struct " + m.name + " {" + Trace(e.child, FieldAt(v, e.offset)) + ", }"
  {
    var e := m.entries[0];
    var p, t := "struct " + m.name + " {", Trace(e.child, FieldAt(v, e.offset));
    assert Verdict(m, v) == FieldsVerdict(m, v, 1) == (FieldsVerdict(m, v, 0) && Verdict(e.child, FieldAt(v, e.offset)));
    assert Trace(m, v) == p + FieldsTrace(m, v, 1) + "}";
    assert FieldsTrace(m, v, 1) == FieldsTrace(m, v, 0) + t + ", " == t + ", ";
    AssocThree(p, t, ", ");
    AssocThree(p + t, ", ", "}");
    assert ", " + "}" == ", }";
  }

  /** A NULL `va` matcher ends the array at its second entry: only `fmt` is
      compared and reported. */
  lemma VaFormatNullVa(fmtMatcher: Matcher, v: Value)
    ensures var m := Struct("va_format", [EntryOf(FmtOffset, Some(fmtMatcher)), EntryOf(VaOffset, None), Last]);
      (Verdict(m, v) <==> Verdict(fmtMatcher, FieldAt(v, FmtOffset))) &&
      Trace(m, v) == "struct va_format {" + Trace(fmtMatcher, FieldAt(v, FmtOffset)) + ", }"
  {
    var es := [Field(FmtOffset, fmtMatcher), Last, Last];
    assert [EntryOf(FmtOffset, Some(fmtMatcher)), EntryOf(VaOffset, None), Last] == es;
    var m := Struct("va_format", es);
    assert es[1..] == [Last, Last] && LiveCount(es[1..]) == 0;
    assert LiveCount(es) == 1;
    OneLive(m, v);
    assert "struct " + m.name + " {" == "struct va_format {";
  }

  lemma PointChildren()
    ensures Verdict(Rel(Int, Eq, 1), Scalar(1)) && Trace(Rel(Int, Eq, 1), Scalar(1)) == "1 == 1"
    ensures !Verdict(Rel(Int, Eq, 2), Scalar(3)) && Trace(Rel(Int, Eq, 2), Scalar(3)) == "3 not == 2"
  {
    SmallIntEq(1, 1);
    SmallIntEq(3, 2);
  }

  /** A `point` struct matcher over the members at offsets 0 and 4 of a
      value holding 1 and 3 there. */
  lemma PointStruct(c1: Matcher, c2: Matcher, v: Value)
    requires FieldAt(v, 0) == Scalar(1) && FieldAt(v, 4) == Scalar(3)
    ensures var m := Struct("point", [Field(0, c1), Field(4, c2), Last]);
      (Verdict(m, v) <==> Verdict(c1, Scalar(1)) && Verdict(c2, Scalar(3))) &&
      Trace(m, v) == "struct point {" + Trace(c1, Scalar(1)) + ", " + Trace(c2, Scalar(3)) + ", }"
  {
    TwoFieldStruct("point", 0, c1, 4, c2, v);
    assert "struct " + "point" + " {" == "struct point {";
  }

  /** A struct of two ints whose first member matches and whose second
      does not: the struct fails, and both children still write their
      traces. */
  lemma StructExample()
    ensures var m := Struct("point", [Field(0, Rel(Int, Eq, 1)), Field(4, Rel(Int, Eq, 2)), Last]);
      var v := Record(map[0 := Scalar(1), 4 := Scalar(3)]);
      !Verdict(m, v) && Trace(m, v) == "struct point {" + "1 == 1" + ", " + "3 not == 2" + ", }"
  {
    var v := Record(map[0 := Scalar(1), 4 := Scalar(3)]);
    assert FieldAt(v, 0) == Scalar(1) && FieldAt(v, 4) == Scalar(3);
    PointStruct(Rel(Int, Eq, 1), Rel(Int, Eq, 2), v);
    PointChildren();
  }
}
