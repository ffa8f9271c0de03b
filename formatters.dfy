/** Parameter formatters: they write a value to the diagnostic stream when a
    mock reports its calls. The struct formatter walks the same kind of
    sentinel-terminated entry array as the struct matcher. */
module Formatters {
  import opened Wrappers
  import opened Values
  import opened Entries
  import opened Kunit
  import M = Matchers
  import MF = MatcherFacts

  /** A `struct mock_param_formatter`. The formatters of single values are
      not part of this model: they are kept as the text they write for a
      value. */
  datatype Formatter =
    | Foreign(typeName: string, render: Value -> string)
    | Struct(typeName: string, entries: seq<Entry<Formatter>>)

  /** What a formatter writes for `v`. */
  function Text(f: Formatter, v: Value): string
    decreases f, 1
  {
    match f
    case Foreign(_, render) => render(v)
    case Struct(name, es) => name + " {" + FieldsText(f, v, LiveCount(es)) + "}"
  }

  /** What the first `k` entries write: each child's text and `", "`. */
  function FieldsText(f: Formatter, v: Value, k: nat): string
    requires f.Struct? && k <= LiveCount(f.entries)
    decreases f, 0, k
  {
    if k == 0 then ""
    else
      var e := f.entries[k - 1];
      FieldsText(f, v, k - 1) + Text(e.child, FieldAt(v, e.offset)) + ", "
  }

  /** Every entry array reached holds its sentinel. */
  predicate WellFormed(f: Formatter)
    decreases f
  {
    match f
    case Foreign(_, _) => true
    case Struct(_, es) =>
      Terminated(es) && forall i :: 0 <= i < LiveCount(es) ==> WellFormed(es[i].child)
  }

  /** `pformatter->format(pformatter, stream, param)`. */
  method Format(f: Formatter, param: Value, stream: Stream)
    requires WellFormed(f)
    modifies stream
    ensures stream.text == old(stream.text) + Text(f, param)
    decreases f, 1
  {
    match f
    case Foreign(_, render) =>
      stream.Add(render(param));
    case Struct(_, _) =>
      FormatStruct(f, param, stream);
  }


  /** `mock_format_struct`: the type name, every member up to the sentinel
      formatted at its offset and followed by `", "`, then the closing
      brace. */
  method FormatStruct(f: Formatter, param: Value, stream: Stream)
    requires f.Struct? && WellFormed(f)
    modifies stream
    ensures stream.text == old(stream.text) + Text(f, param)
    decreases f, 0
  {
    var es := f.entries;
    var live := LiveCount(es);
    ghost var t0 := stream.text;
    stream.Add(f.typeName + " {");
    ghost var t1 := stream.text;
    var i := 0;
    while es[i].Field?
      invariant 0 <= i <= live
      invariant stream.text == t1 + FieldsText(f, param, i)
      decreases live - i
    {
      var child := es[i].child;
      var member := FieldAt(param, es[i].offset);
      Format(child, member, stream);
      stream.Add(", ");
      Assoc(t1, FieldsText(f, param, i), Text(child, member), ", ");
      i := i + 1;
    }
    stream.Add("}");
    Assoc(t0, f.typeName + " {", FieldsText(f, param, live), "}");
  }

  /** `mock_struct_formatter`: keeps the type name and the caller's entry
      array, or NULL when the allocation fails. */
  method NewStructFormatter(typeName: string, entries: seq<Entry<Formatter>>) returns (r: Option<Formatter>)
    ensures r == None || r == Some(Struct(typeName, entries))
  {
    var ok := Alloc();
    if !ok {
      return None;
    }
    r := Some(Struct(typeName, entries));
  }

  // ---------------------------------------------------------------------
  // Properties

  /** The texts of the live children, in entry order. */
  function ChildTexts(f: Formatter, v: Value): (ts: seq<string>)
    requires f.Struct?
    ensures |ts| == LiveCount(f.entries)
  {
    var es := f.entries;
    seq(LiveCount(es), i requires 0 <= i < LiveCount(es) => Text(es[i].child, FieldAt(v, es[i].offset)))
  }

  lemma {:induction false} FieldsTextJoined(f: Formatter, v: Value, k: nat)
    requires f.Struct? && k <= LiveCount(f.entries)
    ensures FieldsText(f, v, k) == Joined(ChildTexts(f, v)[..k])
  {
    if k > 0 {
      var ts := ChildTexts(f, v);
      FieldsTextJoined(f, v, k - 1);
      assert ts[..k] == ts[..k - 1] + [ts[k - 1]];
      JoinedAppend(ts[..k - 1], ts[k - 1]);
    }
  }

  /** A struct formatter writes its type name, then every live member's text
      followed by `", "`, then `"}"`. */
  lemma StructTextShape(f: Formatter, v: Value)
    requires f.Struct?
    ensures Text(f, v) == f.typeName + " {" + Joined(ChildTexts(f, v)) + "}"
  {
    var ts := ChildTexts(f, v);
    FieldsTextJoined(f, v, LiveCount(f.entries));
    assert ts[..LiveCount(f.entries)] == ts;
  }

  /** A struct matcher and a struct formatter over the same members, whose
      children write the same text for each member, write the same thing but
      for the matcher's leading `"struct "`. */
  lemma MatcherTraceIsFormatterText(m: M.Matcher, f: Formatter, v: Value)
    requires m.Struct? && f.Struct? && m.name == f.typeName
    requires LiveCount(m.entries) == LiveCount(f.entries)
    requires forall i :: 0 <= i < LiveCount(m.entries) ==>
      m.entries[i].offset == f.entries[i].offset &&
      M.Trace(m.entries[i].child, FieldAt(v, m.entries[i].offset)) == Text(f.entries[i].child, FieldAt(v, f.entries[i].offset))
    ensures M.Trace(m, v) == "struct " + Text(f, v)
  {
    var ts, us := MF.ChildTraces(m, v), ChildTexts(f, v);
    assert forall i :: 0 <= i < |ts| ==> ts[i] == us[i];
    assert ts == us;
    var body := Joined(us);
    MF.StructTraceShape(m, v);
    StructTextShape(f, v);
    assert M.Trace(m, v) == "struct " + f.typeName + " {" + body + "}";
    assert Text(f, v) == f.typeName + " {" + body + "}";
    Assoc("struct ", f.typeName, " {", body);
    assert "struct " + f.typeName + " {" + body + "}" == "struct " + (f.typeName + " {" + body) + "}";
  }
}
