/** What a matcher, formatter or action is handed: the value a `const void *`
    argument points at, modelled by its contents instead of its address. */
module Values {

  /** A byte of a memory buffer. */
  newtype byte = b: int | 0 <= b < 256

  /** The identity of a `struct kunit` test handle. */
  type TestRef = nat

  /** `Record` is a composite value: the field found at each byte offset. */
  datatype Value =
    | Bool(flag: bool)
    | Scalar(n: int)
    | Bytes(data: seq<byte>)
    | Str(text: string)
    | Record(fields: map<nat, Value>)

  /** The readings below are what the matchers take out of the value when it
      has the shape their C type demands; the defaults they give otherwise are
      never used by a conforming call. */
  function ScalarOf(v: Value): int
  {
    if v.Scalar? then v.n else 0
  }

  function BytesOf(v: Value): seq<byte>
  {
    if v.Bytes? then v.data else []
  }

  function TextOf(v: Value): string
  {
    if v.Str? then v.text else ""
  }

  /** The member at `base + offset`. */
  function FieldAt(v: Value, offset: nat): Value
  {
    if v.Record? && offset in v.fields then v.fields[offset] else Scalar(0)
  }

  /** The first `n` elements of `s` (all of `s` when it is shorter). */
  function Take<T>(s: seq<T>, n: nat): (r: seq<T>)
    ensures n <= |s| ==> r == s[..n]
  {
    if n <= |s| then s[..n] else s
  }
}
