# mini-json writer, modelled in Dafny

This project models the JSON writer of mini-json (`mini-json.c`), a
zero-allocation serialiser that writes one JSON value into a caller-supplied
fixed buffer. The buffer is used from both ends:

- the emitted text grows up from offset 0 to `sp`;
- the closers (`]` and `}`) of the containers still open form a stack that
  grows down from `buffer_len` to `ep`;
- `depth` counts the open containers.

There are three modules:

- `WriterModel` (`writer_model.dfy`) describes every writer function as a
  function over a `View`. A view holds the text `buffer[..sp]`, the closer
  stack `buffer[ep..buffer_len]`, the depth and the capacity. Each operation
  has a lemma that states what it does: when it succeeds, what it appends
  or stacks, what a failure leaves behind, and that it keeps the writer
  invariant.
- `MiniJson` (`mini_json.dfy`) is the writer as the C code has it: the class
  `Writer` over an `array<char>`, with fields `sp`, `ep` and `depth`, and
  one method per C function. The loops of `push_string` and
  `push_json_string` copy byte by byte. Each method is proved against its
  `WriterModel` function through `Model()`, the view of the buffer. Each
  method also leaves the bytes past `buffer_len` untouched.
  `Render` is a client that makes the calls in the order `main.c` does
  (init, the calls for a value, the final end) but checks every status.
- `JsonText` (`json_text.dfy`) describes the calls a caller makes to write a
  value tree of booleans, strings, arrays and objects, and the text that
  tree has. It proves that the calls for a value, from any open state,
  append exactly the separator and the value's text, and fail exactly when
  that text does not fit. It also proves that the closer stack tracks the
  depth until the top-level end. The main result is `WritesDocument`:
  init, then the calls, then the top-level end, succeed exactly when the
  text and a NUL fit in the buffer, and the buffer then holds exactly that
  text and the NUL.

Status codes are the datatype `Status`; `Code` gives their numeric values,
and `Failed` is the `CHECK` macro's test on them.
C strings are `seq<char>` of their `strlen` bytes.

## Behaviour of the code worth knowing

- Strings and keys are not escaped. `push_json_string` copies them verbatim
  between quotes, and mini-json.c:41 marks proper escaping as a TODO.
  `Quoted(s)` is therefore `"` + `s` + `"`.
- The outermost `end` writes a NUL, sets `depth` to -1 and returns `MJ_OK`
  (0). It does not return the text length, although main.c:27 stores its
  result in `len` and prints it as one.
- `push_string` and `push_json_string` check the capacity before they
  write, so they are all-or-nothing. The public calls are not. Each `CHECK`
  returns early and leaves earlier writes in place (mini-json.c:72-74,
  80-82, 100-101, 106, 111). `start_array` and `start_object` can leave the
  comma and the opener written when the closer does not fit. `put_key`,
  `put_bool` and `put_string` can leave the comma written, and `put_key` can
  also leave the key written without its `:`. The `*Opens` and `*Writes`
  lemmas state exactly what a failure may leave: a prefix of the intended
  text.
- `depth` is a plain `int` (mini-json.h:30), and after the top-level end
  it is -1. Nothing stops a container being opened after that. A following
  `end` at depth 0 then writes a second NUL and leaves the closer on the
  stack (`ReuseAfterEndStrandsCloser`).
- main.c:13-27 ignores every status. When a call fails for lack of room,
  whatever it wrote before failing stays (a comma, an opener, a quoted key)
  and the later calls go on. The last `end` can then report Ok over text
  that is truncated (`IgnoringStatusesHidesTruncation`) or not JSON at all
  (`IgnoringStatusesLeavesDanglingComma`).

## Model

| member | source | states |
|---|---|---|
| WriterModel.Code | mini-json.h:33-38 | The status codes are 0, -1, -2 and -3, and only `MJ_OK` is 0. |
| WriterModel.Failed | mini-json.c:4 | The `CHECK` macro's test `(err) != MJ_OK`, made on the numeric code, holds exactly for the statuses other than Ok. Every early return of the model is written with it. |
| WriterModel.Init | mini-json.c:63-69 | A fresh writer has sp = 0, ep = len and depth 0. It satisfies the writer invariant, and its stack tracks its depth. |
| MiniJson.Writer.Init | mini-json.c:63-69 | The constructor over a buffer of `len` bytes gives the initial view and a valid writer. |
| WriterModel.PushStart | mini-json.c:6-13 | push_start keeps 0 <= sp <= ep <= buffer_len. What it writes is stated by `PushStartWrites`. |
| WriterModel.PushStartWrites | mini-json.c:6-13 | push_start succeeds exactly when sp < ep. It then writes `c` at the old sp and advances sp by one. On NoMem nothing changes. |
| MiniJson.Writer.PushStart | mini-json.c:6-13 | The array method writes `c` at `sp` and leaves the buffer in the state `WriterModel.PushStart` gives; on failure no byte of the array changes. |
| WriterModel.PushEnd | mini-json.c:15-22 | push_end keeps 0 <= sp <= ep <= buffer_len. What it stacks is stated by `PushEndStacks`. |
| WriterModel.PushEndStacks | mini-json.c:15-22 | push_end succeeds exactly when ep > sp. `c` then becomes the new top of the stack at ep - 1. The text and the depth are unchanged, and NoMem changes nothing. |
| MiniJson.Writer.PushEnd | mini-json.c:15-22 | The array method writes `c` at the decremented `ep`, as `WriterModel.PushEnd`; on failure no byte of the array changes. |
| WriterModel.PopEnd | mini-json.c:24-26 | pop_end, given a stacked byte, keeps 0 <= sp <= ep <= buffer_len. What it returns is stated by `PopEndUnstacks`. |
| WriterModel.PopEndUnstacks | mini-json.c:24-26 | pop_end returns the top of the stack, which is a closer, and frees its byte (ep + 1). |
| MiniJson.Writer.PopEnd | mini-json.c:24-26 | The array method reads `buffer[ep]` and advances `ep`, as `WriterModel.PopEnd`. |
| WriterModel.PushString | mini-json.c:28-37 | push_string keeps 0 <= sp <= ep <= buffer_len. What it writes is stated by `PushStringWrites`. |
| WriterModel.PushStringWrites | mini-json.c:28-37 | push_string is all-or-nothing. It succeeds exactly when `s` fits and then appends `s`; on NoMem nothing changes. |
| MiniJson.Writer.PushString | mini-json.c:28-37 | The capacity test, then the byte-by-byte copy loop, give `WriterModel.PushString`; on failure no byte of the array changes. |
| WriterModel.PushJsonString | mini-json.c:39-50 | push_json_string, with Ok where the source has no return, keeps 0 <= sp <= ep <= buffer_len. What it writes is stated by `PushJsonStringWrites`. |
| WriterModel.PushJsonStringWrites | mini-json.c:39-50 | push_json_string is all-or-nothing and appends `"` + s + `"`. The string sits unchanged between the quotes. |
| MiniJson.Writer.PushJsonString | mini-json.c:39-50 | Opening quote, copy loop and closing quote give `WriterModel.PushJsonString`, with Ok on success; on failure no byte of the array changes. |
| WriterModel.PushJsonStringAsWritten | mini-json.c:39-50 | push_json_string as written keeps 0 <= sp <= ep <= buffer_len, and the only status it produces is NoMem, with nothing changed; on success it produces none. Its relation to the corrected function is stated by `AsWrittenLosesOnlyTheStatus`. |
| WriterModel.AsWrittenLosesOnlyTheStatus | mini-json.c:39-50 | The function as written writes the same bytes and moves the same cursors. It yields no status exactly when the corrected one returns Ok. |
| WriterModel.MissingReturnExample | mini-json.c:39-50 | Writing "ab" into 8 free bytes writes `"ab"` and yields no status as written, but Ok when corrected. |
| WriterModel.Comma | mini-json.c:52-61 | comma keeps 0 <= sp <= ep <= buffer_len. What it writes is stated by `CommaWrites`. |
| WriterModel.CommaWrites | mini-json.c:52-61 | comma writes ',' exactly when the text is non-empty and its last byte is not `{`, `[` or `:`. It fails only for lack of room and then changes nothing. |
| MiniJson.Writer.Comma | mini-json.c:52-61 | The array method implements the separator rule as `WriterModel.Comma`. |
| WriterModel.StartContainer | mini-json.c:71-85 | The body shared by start_array and start_object keeps 0 <= sp <= ep <= buffer_len. What it writes is stated by `StartContainerOpens`. |
| WriterModel.StartContainerOpens | mini-json.c:71-85 | For any opener and closer: success exactly when the separator and two bytes fit, with the opener appended, the closer stacked and depth + 1. On failure NoMem, stack, depth and capacity unchanged, and at most a prefix of separator + opener written. Keeps the invariant (for a closer `]` or `}`) and the depth tracking. |
| WriterModel.StartArray | mini-json.c:71-77 | start_array keeps the writer invariant. |
| WriterModel.StartObject | mini-json.c:79-85 | start_object keeps the writer invariant. |
| WriterModel.StartArrayOpens | mini-json.c:71-77 | start_array succeeds exactly when the separator and two bytes fit. It then appends separator + `[`, stacks `]` and increments depth. On failure it reports NoMem, the stack and depth are unchanged, and at most a prefix of separator + `[` was written. It keeps the invariant and the depth tracking. |
| WriterModel.StartObjectOpens | mini-json.c:79-85 | The same for start_object, with `{` and `}`. |
| WriterModel.StartArrayPartialWriteExample | mini-json.c:71-77 | With one free byte, start_array writes `[`, then fails with NoMem, leaving depth 0. |
| MiniJson.Writer.StartContainer | mini-json.c:71-85 | The shared body (comma, push_start, push_end, depth++), returning early on the first failure, as `WriterModel.StartContainer`. |
| MiniJson.Writer.StartArray | mini-json.c:71-77 | The method keeps the writer valid and gives `WriterModel.StartArray`. |
| MiniJson.Writer.StartObject | mini-json.c:79-85 | The method keeps the writer valid and gives `WriterModel.StartObject`. |
| WriterModel.End | mini-json.c:87-97 | end keeps the writer invariant, including depth >= -1. |
| WriterModel.EndCloses | mini-json.c:87-97 | At depth > 0, end moves the top closer from the stack to the text, decrements depth, and cannot fail. At depth 0, it writes NUL and sets depth to -1 when a byte is free; otherwise NoMem with nothing changed. Below 0, InvalidState with nothing changed. |
| MiniJson.Writer.End | mini-json.c:87-97 | The three branches on the array give `WriterModel.End` and keep the writer valid. |
| WriterModel.PutKey | mini-json.c:99-103 | put_key keeps the writer invariant. |
| WriterModel.PutKeyWrites | mini-json.c:99-103 | put_key succeeds exactly when separator + quoted key + `:` fit, and then appends them. Afterwards no comma is due. On failure NoMem, with at most a proper prefix written. |
| MiniJson.Writer.PutKey | mini-json.c:99-103 | The method gives `WriterModel.PutKey` and keeps the writer valid. |
| WriterModel.PutBool | mini-json.c:105-108 | put_bool keeps the writer invariant. |
| WriterModel.PutBoolWrites | mini-json.c:105-108 | put_bool succeeds exactly when separator + `true` (for a nonzero value) or `false` (for zero) fit, and then appends it. On failure NoMem, with at most a proper prefix written. |
| MiniJson.Writer.PutBool | mini-json.c:105-108 | The method gives `WriterModel.PutBool` and keeps the writer valid. |
| WriterModel.PutString | mini-json.c:110-113 | put_string keeps the writer invariant. |
| WriterModel.PutStringWrites | mini-json.c:110-113 | put_string succeeds exactly when separator + quoted string fit, and then appends them. On failure NoMem, with at most a proper prefix written. |
| MiniJson.Writer.PutString | mini-json.c:110-113 | The method gives `WriterModel.PutString` and keeps the writer valid. |
| JsonText.Apply | mini-json.c:71-113 | Any public call keeps the writer invariant. |
| JsonText.Run | mini-json.c:71-113 | A caller that checks every status and stops at the first failure keeps the writer invariant. |
| JsonText.RunAll | main.c:13-27 | A caller that ignores every status, as main.c does, makes every call, keeps only the last status, and keeps the writer invariant. |
| JsonText.RunAllAgreesOnSuccess | main.c:13-27 | When the checking caller succeeds, the ignoring caller ends in exactly the same status and state. |
| JsonText.IgnoringStatusesHidesTruncation | main.c:13-27 | In 3 bytes, `[`, put_string "abc", end, end: the text of that array does not fit. The ignoring caller nevertheless ends with Ok and the text `[]` NUL, while the checking caller stops with NoMem after `[`. |
| JsonText.IgnoringStatusesLeavesDanglingComma | main.c:13-27 | In 8 bytes, `[`, put_bool 1, put_string "abc", end, end: put_string writes its comma and then fails, and the ignoring caller ends with Ok over `[true,]` NUL, which has a trailing comma. |
| JsonText.StepOffset | mini-json.c:71-113 | Each public call keeps depth - \|stack\| unchanged, except a successful top-level end, which lowers it by one. |
| JsonText.DepthOffset | mini-json.c:71-113 | Over any run, depth - \|stack\| drops by exactly the number of successful top-level ends. |
| JsonText.TrackingUntilTopLevelEnd | mini-json.c:71-97 | From a writer whose stack tracks its depth, the stack still tracks the depth after a run exactly when no top-level end has succeeded. |
| JsonText.ReuseAfterEndStrandsCloser | mini-json.c:71-97 | `[`, end, end, `[`, end on 8 bytes succeeds with text `[]` NUL `,[` NUL, a `]` left on the stack, and depth -1. |
| JsonText.RunConcat | mini-json.c:71-113 | For the checking caller, running two call sequences one after the other is running them as one sequence, stopping at the first failure. |
| JsonText.WritesValue | mini-json.c:52-113 | The calls for any value, from any open state, succeed exactly when the separator and the value's text fit. They then append exactly that, leaving stack and depth unchanged. |
| JsonText.WritesContainer | mini-json.c:71-97 | An array or object is written as its opener, its children and its closer, taken from the stack. |
| JsonText.WritesItems | mini-json.c:52-61 | Array elements are written with a comma between consecutive elements and none before the first. |
| JsonText.WritesMember | mini-json.c:99-103 | An object member is written as separator, quoted key, `:`, then its value with no comma after the `:`. |
| JsonText.WritesMembers | mini-json.c:52-61 | Object members are written with a comma between consecutive members and none before the first. |
| JsonText.WritesDocument | mini-json.c:63-113 | From init over `len` bytes, the calls for a value followed by the top-level end succeed exactly when \|text\| + 1 <= len. The writer then holds text + NUL, an empty stack, and depth -1. |
| MiniJson.Emit | mini-json.c:71-113 | One public call on the array writer gives `JsonText.Apply` on its view. |
| MiniJson.Render | main.c:6-32 | A caller in main.c's order that, unlike main.c, checks each status: over a fresh buffer of `len` bytes, writing a value and ending it returns Ok exactly when the text and its NUL fit. The buffer then holds exactly that text and the NUL. |

## Findings

| source | as written | input that shows it | evidently intended | confidence | as-written member | corrected member |
|---|---|---|---|---|---|---|
| mini-json.c:39-50 | `push_json_string` has no `return` after a successful write, so `put_string` returns an undefined value to its caller, and `put_key`'s `CHECK` tests one (C11 6.9.1p12). | Any string that fits, e.g. "ab" into 8 free bytes. | `return MJ_OK;` after the closing quote. | high; not executed | WriterModel.PushJsonStringAsWritten (with WriterModel.MissingReturnExample) | WriterModel.PushJsonString (with WriterModel.PushJsonStringWrites) |

## Left out

- The reader is not part of this model. `mini-json.h` declares only its state `mj_reader_t` and four functions (`mj_reader_init`, `mj_reader_set_callback`, `mj_reader_push`, `mj_reader_push_end`), and `mini-json.c` defines none of them.
- `mj_writer_put_base64`, `put_null`, `put_int`, `put_float` and `put_double` are declared in `mini-json.h` but have no definition in `mini-json.c`. They are not modelled, and `JsonText.Value` has no null or number.
- String escaping is not modelled: the code does none.
- C strings: `strlen` is replaced by the sequence length. A string containing NUL is therefore copied in full, where the C code would stop at the first NUL.
- `MiniJson.Writer.PushString`, `PushJsonString`, `StartContainer`, `PutKey`, `PutBool`, `PutString`: `int` overflow in `sp + len` and `sp + len + 2` is not modelled; positions are unbounded integers.
- `char` is Dafny's `char`, not an 8-bit C `char`. No operation of the writer depends on the difference.
- `MiniJson.Writer.Init` requires 0 <= len <= the array's length. This is the caller's promise that `buffer` holds `len` bytes; the C code does not check it.
- `MiniJson.Writer.End` requires the writer invariant (`Valid`), which every method keeps. The C code reads `buffer[ep]` without a check at depth > 0, relying on that invariant.
- `MiniJson.Render` stops at the first failing call. main.c does not: it ignores every status and goes on calling. That caller is modelled on views by `JsonText.RunAll`, not as a method of the class.
- `main.c` calls `put_float`, `put_int` and `put_base64` and prints the result. `MiniJson.Render` covers only its shape (init, calls, top-level end), not the printing or the undefined calls.
