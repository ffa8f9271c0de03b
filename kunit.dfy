/** What the mocks need of the KUnit test context: the diagnostic stream
    (`struct kunit_stream`), an append-only text sink that knows the test it
    belongs to, and the test-scoped allocator, whose failures are left open. */
module Kunit {
  import opened Values

  class Stream {
    const test: TestRef
    var text: string

    constructor (test: TestRef)
      ensures this.test == test && text == ""
    {
      this.test := test;
      text := "";
    }

    /** `kunit_stream_add`, with the printf rendering already done. */
    method Add(s: string)
      modifies this
      ensures text == old(text) + s
    {
      text := text + s;
    }
  }

  /** Regrouping text appended to a stream piece by piece. */
  lemma AssocThree(a: string, b: string, c: string)
    ensures a + b + c == a + (b + c)
  {
  }

  lemma Assoc(a: string, b: string, c: string, d: string)
    ensures a + b + c + d == a + (b + c + d)
  {
  }

  /** One `kunit_kmalloc`/`kunit_kzalloc` call: `ok` is false when the
      allocation failed and NULL came back. Either outcome is possible. */
  method Alloc() returns (ok: bool)
  {
    ok :| true;
  }
}
