# KUnit common mocks, modelled in Dafny

This project models `lib/kunit/common-mocks.c`, the stock parts of KUnit's
mocking library:

- the argument **matchers** a mocked call's parameters are checked against:
  the wildcard, the relational family over sixteen integer, char and pointer
  kinds, `memeq`, `streq`, `str_contains` and the struct matcher;
- the **capturers**, which wrap a matcher and keep the last parameter it
  accepted;
- the **return and invoke actions**, which decide what a mocked call
  returns;
- the **struct formatter**, which writes a composite parameter to the
  diagnostic stream.

Every matcher writes a trace of what it compared to a `kunit_stream` and
returns its verdict.

The model is split into modules:

- `Kinds` holds the C types and their value ranges, and the comparison
  operators.
- `Render` holds the printf conversions: decimal, `%c`, `%02x` and hexadecimal
  addresses.
- `Values` holds the parameter values.
- `Kunit` holds what the mocks need of the KUnit test context:
  - the stream, a class whose text only grows;
  - the allocator, which may fail;
  - two lemmas that regroup appended text.
- `Entries` holds the sentinel-terminated entry arrays.
- `Matchers` holds the matchers and capturers.
  - A matcher is a datatype value, run by the `Match` method.
  - `Match` is proved to return `Verdict(m, v)`.
  - It is proved to append exactly `Trace(m, v)`.
  - It is proved to leave every capturer's slot as the capture writes `Writes(m, v)` dictate.
  - A capturer is a class with a mutable `captured` slot.
- `MatcherFacts` holds what those functions mean:
  - traces can be read back;
  - a struct match is the conjunction over its live entries;
  - every child's trace appears in it, in order;
  - entries after the sentinel do not matter;
  - worked examples.
- `Formatters` holds the struct formatter and its link to the struct matcher.
- `Actions` holds the return and invoke actions.

Choices:

- Plain `char` is unsigned and `long` and pointers are 64 bits wide, as on the arm64 targets of this tree.
- A pointer is rendered as its plain hexadecimal digits.
- Allocation failure is a nondeterministic outcome of `Alloc`. Every factory then returns `None`, the C NULL.
- A parameter is a `Value`: a boolean, a number within its kind's range, bytes, a string, or a record of members by byte offset.

## Model

| member | source | states |
|---|---|---|
| Kinds.RangeSize | lib/kunit/common-mocks.c:126-142 | each kind's range holds exactly 2^bits values; a signed kind runs from -(max+1) to max, an unsigned one from 0 |
| Render.Show | lib/kunit/common-mocks.c:45-61 | a `%c` conversion writes exactly one character; every other conversion writes a non-empty text without blanks |
| Render.ShowInjective | lib/kunit/common-mocks.c:45-61 | two in-range values of one kind are written alike only when they are equal (for pointers, under the plain hexadecimal stand-in for `%pK`) |
| Render.HexDumpRoundTrip | lib/kunit/common-mocks.c:162-171 | a dump of `"%02x, "` cells reads back to exactly the bytes dumped |
| Render.SignedCharCellWidens | lib/kunit/common-mocks.c:163 | read through a signed `char`, a byte of 0x80 or more prints as more than two digits, differing from the intended cell |
| Render.SignedCharCellExample | lib/kunit/common-mocks.c:163 | the byte 0x80 then prints `ffffff80, `, which is not a readable dump |
| Render.SignedCharCellAgrees | lib/kunit/common-mocks.c:163 | bytes below 0x80 print the same whatever the signedness of `char` |
| Entries.LiveCount | lib/kunit/common-mocks.c:319 | the walk covers exactly the entries before the first sentinel, and it stops on a sentinel |
| Entries.LiveCountIgnoresTail | lib/kunit/common-mocks.c:319 | whatever follows the first sentinel does not change how far the walk goes |
| Matchers.StrStr | lib/kunit/common-mocks.c:245 | `strstr` finds the first position where the needle occurs, or none when it does not occur |
| Matchers.StrStrFindsExactly | lib/kunit/common-mocks.c:245 | `strstr` succeeds exactly when the needle occurs contiguously in the haystack |
| Matchers.Match | lib/kunit/common-mocks.c:321 | calling a matcher returns its verdict and appends its trace; a capturer inside it ends up holding the callback's result for its last accepted parameter, and any other slot is left alone |
| Matchers.MatchAny | lib/kunit/common-mocks.c:12-18 | the wildcard accepts and appends exactly `don't care` |
| Matchers.KunitAny | lib/kunit/common-mocks.c:20-27 | the shared wildcard accepts every value, always writes `don't care` and captures nothing |
| Matchers.MatchRel | lib/kunit/common-mocks.c:63-89 | the verdict is `actual op expected` on the kind's values; the trace is `<actual> <op> <expected>`, or `<actual> not <op> <expected>` on failure |
| Matchers.NewRel | lib/kunit/common-mocks.c:91-106 | either NULL or a matcher holding the kind, the operator and `expected` unchanged |
| Matchers.MatchMemEq | lib/kunit/common-mocks.c:150-174 | true iff the first `size` bytes are equal; appends the actual dump, `== ` or `!= `, then the expected dump |
| Matchers.DumpBytes | lib/kunit/common-mocks.c:162-163 | the loop appends one `"%02x, "` cell per byte, in order |
| Matchers.NewMemEq | lib/kunit/common-mocks.c:176-191 | either NULL or a matcher holding the buffer and the size unchanged |
| Matchers.MatchStrEq | lib/kunit/common-mocks.c:198-215 | true iff the strings are equal; appends `a == e` or `a != e` |
| Matchers.NewStrEq | lib/kunit/common-mocks.c:217-229 | either NULL or a matcher holding the string |
| Matchers.MatchStrContains | lib/kunit/common-mocks.c:236-258 | true iff the needle occurs in the haystack; appends `'n' found in 'h'` or `'n' not found in 'h'` |
| Matchers.NewStrContains | lib/kunit/common-mocks.c:260-273 | either NULL or a matcher holding the needle |
| Matchers.VaFormatCmp | lib/kunit/common-mocks.c:275-297 | either NULL or the struct matcher `va_format` over `fmt` and `va`, with a sentinel third entry; a NULL child matcher becomes a sentinel entry, as `INIT_MOCK_STRUCT_MATCHER_ENTRY` then leaves it |
| Matchers.MatchStruct | lib/kunit/common-mocks.c:305-328 | the loop ANDs the verdicts of all live entries and appends `struct <name> {`, each child's trace with `, `, then `}`; every child's captures take effect in entry order |
| Matchers.MatchEntry | lib/kunit/common-mocks.c:320-323 | one pass of the loop: the entry's child is matched against the member at its offset, its trace and `, ` are appended, and its captures take effect |
| Matchers.NewStruct | lib/kunit/common-mocks.c:330-346 | either NULL or a matcher holding the name and the entry array |
| Matchers.MatchAndCapture | lib/kunit/common-mocks.c:348-365 | the verdict and trace are the child's; on a match the slot is overwritten with the callback's result, otherwise it is untouched |
| Matchers.MatchCapturer | lib/kunit/common-mocks.c:359-363 | for a capturer handed to a mock: on a true match its slot holds what the callback returns for the parameter; on a false match it keeps its old value; every capturer inside the child ends up as the child's own captures leave it |
| Matchers.CaptureOnlyOnMatch | lib/kunit/common-mocks.c:359-363 | the last capture into a capturer is the matched value when the child accepted, and there is none otherwise |
| Matchers.Capturer.AsMatcher | lib/kunit/common-mocks.c:378-379 | the embedded matcher answers with the child's verdict and trace, contains this capturer besides the child's, and captures into this capturer after the child's captures exactly when the child matched |
| Matchers.CreateCapturer | lib/kunit/common-mocks.c:367-384 | either NULL or a fresh capturer with the given child and callback and an empty slot |
| Matchers.CaptureValue | lib/kunit/common-mocks.c:361 | the callback's result for the test and the parameter: a stored copy or NULL for the two stock callbacks (the pointer callback in its corrected form, `CapturePtr`), whatever the test's own callback returns otherwise |
| Matchers.CaptureInt | lib/kunit/common-mocks.c:386-397 | a copy of the int, or NULL when the allocation fails |
| Matchers.IntCapturerCreate | lib/kunit/common-mocks.c:399-405 | a capturer using `mock_capture_int`, with an empty slot |
| Matchers.CapturedPtr | lib/kunit/common-mocks.c:407-416 | the corrected capture returns storage exactly when the allocation succeeded, and that storage holds the pointer |
| Matchers.CapturePtr | lib/kunit/common-mocks.c:407-416 | a copy of the pointer, or NULL when the allocation fails (the corrected behaviour) |
| Matchers.CapturePtrAsWrittenVsCorrected | lib/kunit/common-mocks.c:407-416 | on either allocation outcome the code as written stores exactly what the corrected capture returns, and it writes through NULL exactly where the corrected capture returns NULL |
| Matchers.CapturePtrAsWrittenFaults | lib/kunit/common-mocks.c:412-413 | a failed allocation leads to the write through NULL, where the corrected capture returns NULL |
| Matchers.PtrCapturerCreate | lib/kunit/common-mocks.c:418-424 | a capturer using `mock_capture_ptr`, with an empty slot |
| MatcherFacts.RelTraceDetermines | lib/kunit/common-mocks.c:77-86 | a relational trace names the actual and expected values unambiguously, so it also shows the verdict (for pointers, under the plain hexadecimal stand-in for `%pK`) |
| MatcherFacts.RelTraceMarksFailure | lib/kunit/common-mocks.c:77-86 | the letter after the actual value and its blank is `n` exactly when the relation fails, and a failing trace has ` not ` right after the actual value |
| MatcherFacts.RelComplements | lib/kunit/common-mocks.c:111-121 | `ne`, `lt` and `gt` accept exactly what `eq`, `ge` and `le` reject |
| MatcherFacts.MemEqTraceRoundTrip | lib/kunit/common-mocks.c:162-171 | a memeq trace of n-byte buffers has length 8n+3 and reads back to both buffers and to whether they were equal |
| MatcherFacts.MemEqMatchDecodes | lib/kunit/common-mocks.c:159-171 | a memeq matcher's verdict is the equality of the first `size` bytes, and its trace gives back those bytes and the verdict |
| MatcherFacts.StrEqTraceParts | lib/kunit/common-mocks.c:207-212 | a streq trace is the actual string, ` == ` exactly when the strings are equal (` != ` otherwise), then the expected string |
| MatcherFacts.EmptyNeedleMatches | lib/kunit/common-mocks.c:245-251 | an empty needle is found in every haystack |
| MatcherFacts.StrContainsMatch | lib/kunit/common-mocks.c:245 | the verdict is whether the needle occurs in the haystack |
| MatcherFacts.FieldsVerdictAll | lib/kunit/common-mocks.c:319-322 | the accumulated `matches` after k entries is the conjunction of the first k child verdicts |
| MatcherFacts.StructVerdictAll | lib/kunit/common-mocks.c:316-327 | a struct matches exactly when every entry before the sentinel matches its member |
| MatcherFacts.FieldsTraceJoined | lib/kunit/common-mocks.c:319-324 | after k entries the stream holds the first k child traces, each followed by `, ` |
| MatcherFacts.StructTraceShape | lib/kunit/common-mocks.c:318-325 | a struct trace is `struct <name> {`, then every live child's trace in order with `, `, then `}`, whatever the earlier verdicts |
| MatcherFacts.StructIgnoresTail | lib/kunit/common-mocks.c:319 | entries after the first sentinel change neither the verdict nor the trace |
| MatcherFacts.TwoFieldStruct | lib/kunit/common-mocks.c:316-327 | a two-member struct matcher accepts iff both children accept, and writes both child traces |
| MatcherFacts.VaFormatMatch | lib/kunit/common-mocks.c:275-297 | the `va_format` matcher accepts iff both the `fmt` and the `va` matchers accept, and writes `struct va_format {<fmt>, <va>, }` |
| MatcherFacts.OneLive | lib/kunit/common-mocks.c:316-327 | a struct matcher with one live entry has that child's verdict and writes `struct <name> {<trace>, }` |
| MatcherFacts.VaFormatNullFmt | lib/kunit/common-mocks.c:282-296 | with a NULL `fmt` matcher the `va_format` matcher accepts every value and writes `struct va_format {}`, whatever `va` is |
| MatcherFacts.VaFormatNullVa | lib/kunit/common-mocks.c:282-296 | with a NULL `va` matcher only `fmt` is compared, and the trace is `struct va_format {<fmt>, }` |
| MatcherFacts.IntEqExamples | lib/kunit/common-mocks.c:75-86 | `int_eq(42)` accepts 42 with trace `42 == 42` and rejects 7 with trace `7 not == 42` |
| MatcherFacts.MemEqExample | lib/kunit/common-mocks.c:159-171 | memeq of `01 02` against `01 03` fails with trace `01, 02, != 01, 03, ` |
| MatcherFacts.StructExample | lib/kunit/common-mocks.c:316-327 | a two-int struct whose second member differs fails, and its trace still holds both children: `struct point {1 == 1, 3 not == 2, }` |
| Formatters.Format | lib/kunit/common-mocks.c:547 | calling a formatter appends exactly its text |
| Formatters.FormatStruct | lib/kunit/common-mocks.c:532-551 | the loop appends `<type_name> {`, each live member's text with `, `, then `}` |
| Formatters.NewStructFormatter | lib/kunit/common-mocks.c:553-570 | either NULL or a formatter holding the type name and the entry array |
| Formatters.FieldsTextJoined | lib/kunit/common-mocks.c:545-549 | after k entries the stream holds the first k member texts, each followed by `, ` |
| Formatters.StructTextShape | lib/kunit/common-mocks.c:544-550 | a struct formatter writes its type name, every live member's text in order with `, `, then `}` |
| Formatters.MatcherTraceIsFormatterText | lib/kunit/common-mocks.c:544-550 | over the same members a struct matcher writes `struct ` followed by what the struct formatter writes |
| Actions.DoAction | lib/kunit/common-mocks.c:432-443 | a return action hands back its stored `bool` or value; an invoke action (`do_invoke`, lines 496-506) returns `invokable(test, params, len)` |
| Actions.ReturnIgnoresCall | lib/kunit/common-mocks.c:433-443 | a return action gives the same result whatever the parameters and their count |
| Actions.NewBoolReturn | lib/kunit/common-mocks.c:445-462 | either NULL or an action every call of which returns the given `bool` |
| Actions.NewReturn | lib/kunit/common-mocks.c:445-488 | either NULL or an action every call of which returns the given value of the kind |
| Actions.NewInvoke | lib/kunit/common-mocks.c:496-524 | either NULL or an action every call of which returns `invokable(test, params, len)` for the creating test |

## Left out

- `%pK` hashing and pointer restriction are not modelled; an address is written as its plain hexadecimal digits.
- Render.ShowInjective: for pointers it holds of the plain hexadecimal stand-in only. The kernel's `%pK` can print zeros, a 32-bit hash or `(____ptrval____)`, so distinct pointers may be written alike.
- MatcherFacts.RelTraceDetermines: for the `ptr` kind it rests on the same plain hexadecimal stand-in and does not hold of `%pK`, so distinct pointers may give the same `kunit_ptr_<op>` trace.
- The exact conversions of `%hu`, `%hd` and `%c` are abstracted by `Show`:
  - numbers are written in decimal;
  - `%c` writes the one character whose code is the value modulo 256;
  - minimum widths, flags and locale are not modelled.
- `container_of`, the function-pointer dispatch and raw pointer arithmetic are replaced:
  - a matcher, formatter or action is a datatype case;
  - a member is looked up in a record by its byte offset.
- The layout of `struct va_format` is not part of this model. `fmt` is assumed at offset 0 and `va` at offset 8.
- The macros of `kunit/mock.h` are not part of this model: `CONVERT_TO_ACTUAL_TYPE` and the `INIT_MOCK_STRUCT_MATCHER_ENTRY` family.
- An entry array without a sentinel makes the C walk run past its end, which is undefined behaviour. The struct matcher and formatter require a sentinel instead.
- C strings are `string` values, and unterminated strings are not represented. A string matcher only accepts parameters, and only holds strings, that contain no NUL character (`Conforms`), since text after an embedded NUL is invisible to `strcmp` and `strstr` and no C string carries it.
- The bodies of test-supplied callbacks are foreign code:
  - `capture_param` is kept as a function of the test handle and the parameter;
  - `invokable` is kept as a function of the test handle, the parameters and their count;
  - the formatters of single values, defined outside this file, are kept as the text they write for a value.
- The `kunit_stream` internals are not modelled, beyond appending text.
- The allocator is not modelled, beyond succeeding or failing. Nothing is freed.
- The test lifecycle is not modelled, and neither is concurrency.
- The test handle that factories receive is only used for allocation, so it is dropped. `invoke` keeps it, and a capture gets `stream->test`.
- Matchers.Match: its capture clause speaks only of capturers that existed before the call, and so says nothing about ones allocated during it. A match allocates none.
- Matchers.MatchCapturer: it requires that a capturer does not occur inside its own child. That holds because a capturer is created after its child, but it is not derived from allocation order here.
- The return actions hand back the stored value itself rather than a pointer into the action.
- `kunit_memeq`, `kunit_streq`, `kunit_str_contains`, `kunit_struct_cmp` and `mock_struct_formatter` keep the caller's pointer and read through it at match time. `NewMemEq`, `NewStrEq`, `NewStrContains`, `NewStruct` and `NewStructFormatter` take the contents at construction instead, so a later write to the caller's buffer is not modelled.
- Matchers.CaptureValue: the pointer callback is modelled in its corrected form, `CapturePtr`, which returns NULL when the allocation fails. The code as written writes through NULL there; `CapturePtrAsWritten` models that, and the finding below records it.

## Findings

| source | as written | input that shows it | evidently intended | confidence | as-written member | corrected member |
|---|---|---|---|---|---|---|
| lib/kunit/common-mocks.c:163 | each byte is read as a plain `char`, promoted to `int` and printed with `%02x` | on a target whose `char` is signed, the byte 0x80 prints `ffffff80, ` | two hexadecimal digits per byte, so the dump reads back to the bytes | medium, not executed (depends on the signedness of `char`) | Render.SignedCharCellExample | Render.HexDumpRoundTrip |
| lib/kunit/common-mocks.c:412-413 | `*pptr = ptr` follows `kunit_kzalloc` with no NULL check | `kunit_kzalloc` returns NULL | return NULL when the allocation fails, as `mock_capture_int` does | high, not executed | Matchers.CapturePtrAsWrittenVsCorrected | Matchers.CapturePtr |
