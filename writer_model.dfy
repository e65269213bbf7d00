/** The fixed-buffer JSON writer of mini-json, as functions over the
    writer's abstract state.

    A writer over a buffer of `buffer_len` bytes has two cursors:
    the text emitted so far is buffer[0 .. sp), and the closers of the
    containers still open are buffer[ep .. buffer_len), a stack whose top
    (the innermost container's closer) sits at `ep`. A `View` records
    those two regions, the depth and the capacity; the bytes between the
    cursors are free space and carry no meaning. */
module WriterModel {

  /** mj_status_t. */
  datatype Status = Ok | NoMem | InvalidState | Unsupported

  datatype Option<T> = None | Some(value: T)

  /** The numeric value of each status code. */
  function Code(s: Status): (c: int)
    ensures -3 <= c <= 0
    ensures c == 0 <==> s == Ok
  {
    match s
    case Ok => 0
    case NoMem => -1
    case InvalidState => -2
    case Unsupported => -3
  }

  /** The test of the CHECK macro, `(err) != MJ_OK`, made on the numeric
      code: it holds exactly for the statuses other than Ok. */
  function Failed(s: Status): (failed: bool)
    ensures failed <==> s != Ok
  {
    Code(s) != 0
  }

  /** content == buffer[..sp], stack == buffer[ep..buffer_len],
      cap == buffer_len. */
  datatype View = View(content: seq<char>, stack: seq<char>, depth: int, cap: int)

  /** The cursor positions a view stands for. */
  function Sp(w: View): int { |w.content| }
  function Ep(w: View): int { w.cap - |w.stack| }

  predicate IsCloser(c: char) { c == ']' || c == '}' }

  /** 0 <= sp <= ep <= buffer_len. */
  predicate Bounded(w: View) { |w.content| + |w.stack| <= w.cap }

  /** The writer invariant: the cursors are in order, the tail holds only
      closers, and depth lies between -1 (after the top-level end) and the
      number of stacked closers. */
  predicate Inv(w: View) {
    Bounded(w) && -1 <= w.depth <= |w.stack| &&
    forall c :: c in w.stack ==> IsCloser(c)
  }

  /** One stacked closer per open container. */
  predicate Tracking(w: View) { w.depth == |w.stack| }

  /** The separator rule: a ',' goes before a new element or member unless
      nothing was emitted yet or the last byte opened a container or ended
      a key. */
  predicate NeedsComma(content: seq<char>) {
    |content| > 0 && content[|content| - 1] != '{' &&
    content[|content| - 1] != '[' && content[|content| - 1] != ':'
  }

  function Sep(content: seq<char>): seq<char> {
    if NeedsComma(content) then [','] else []
  }

  /** A string as the writer quotes it: no escaping at all. */
  function Quoted(s: seq<char>): seq<char> { ['"'] + s + ['"'] }

  function BoolText(b: bool): seq<char> { if b then "true" else "false" }

  /** `r` is what a call that means to append `text` may leave behind:
      it succeeds exactly when `text` fits in the free space, then the
      text is appended; otherwise it reports NoMem and the content has
      grown by a proper prefix of `text` at most. The stack, the depth
      and the capacity never change. */
  predicate Appends(w: View, r: (Status, View), text: seq<char>) {
    r.1.stack == w.stack && r.1.depth == w.depth && r.1.cap == w.cap &&
    (r.0 == Ok <==> Sp(w) + |text| <= Ep(w)) &&
    (r.0 == Ok ==> r.1.content == w.content + text) &&
    (r.0 != Ok ==> r.0 == NoMem && w.content <= r.1.content < w.content + text)
  }

  /** As `Appends`, and a failure leaves the state exactly as it was. */
  predicate AppendsAtomically(w: View, r: (Status, View), text: seq<char>) {
    Appends(w, r, text) && (r.0 != Ok ==> r.1 == w)
  }

  /** mj_writer_init over a buffer of `len` bytes. */
  function Init(len: int): (w: View)
    ensures Sp(w) == 0 && Ep(w) == len && w.depth == 0
    ensures len >= 0 ==> Inv(w) && Tracking(w)
  {
    View([], [], 0, len)
  }

  /** push_start: write `c` at sp and advance sp, if sp < ep. */
  function PushStart(w: View, c: char): (r: (Status, View))
    requires Bounded(w)
    ensures Bounded(r.1)
  {
    if Sp(w) < Ep(w) then (Ok, w.(content := w.content + [c])) else (NoMem, w)
  }

  /** push_end: retreat ep and write `c` there, if ep > sp. */
  function PushEnd(w: View, c: char): (r: (Status, View))
    requires Bounded(w)
    ensures Bounded(r.1)
  {
    if Ep(w) > Sp(w) then (Ok, w.(stack := [c] + w.stack)) else (NoMem, w)
  }

  /** pop_end: read the closer at ep and advance ep. The source does not
      check for an empty stack; its callers only pop a closer they pushed. */
  function PopEnd(w: View): (r: (char, View))
    requires Bounded(w) && |w.stack| > 0
    ensures Bounded(r.1)
  {
    (w.stack[0], w.(stack := w.stack[1..]))
  }

  /** push_string: copy `s` (of length len) to the content; the capacity
      test sp + len > ep comes first. */
  function PushString(w: View, s: seq<char>): (r: (Status, View))
    requires Bounded(w)
    ensures Bounded(r.1)
  {
    if Sp(w) + |s| > Ep(w) then (NoMem, w) else (Ok, w.(content := w.content + s))
  }

  /** push_json_string with a status on its success path (the source has
      no return statement there; see PushJsonStringAsWritten). */
  function PushJsonString(w: View, s: seq<char>): (r: (Status, View))
    requires Bounded(w)
    ensures Bounded(r.1)
  {
    if Sp(w) + |s| + 2 > Ep(w) then (NoMem, w)
    else (Ok, w.(content := w.content + Quoted(s)))
  }

  /** push_json_string as written: on success, control reaches the end of
      a function returning int without a return statement, so the caller
      receives no defined status (None). */
  function PushJsonStringAsWritten(w: View, s: seq<char>): (r: (Option<Status>, View))
    requires Bounded(w)
    ensures Bounded(r.1)
    ensures r.0 != None ==> r == (Some(NoMem), w)
  {
    if Sp(w) + |s| + 2 > Ep(w) then (Some(NoMem), w)
    else (None, w.(content := w.content + Quoted(s)))
  }

  /** comma: emit ',' unless nothing was emitted or the last byte is one
      of '{', '[', ':'. */
  function Comma(w: View): (r: (Status, View))
    requires Bounded(w)
    ensures Bounded(r.1)
  {
    if |w.content| == 0 then (Ok, w)
    else
      var prev := w.content[|w.content| - 1];
      if prev == '{' || prev == '[' || prev == ':' then (Ok, w)
      else PushStart(w, ',')
  }

  /** mj_writer_start_array and mj_writer_start_object: separator, opener
      at the front, closer onto the stack, one level deeper. */
  function StartContainer(w: View, open: char, close: char): (r: (Status, View))
    requires Bounded(w)
    ensures Bounded(r.1)
  {
    var (s1, w1) := Comma(w);
    if Failed(s1) then (s1, w1)
    else
      var (s2, w2) := PushStart(w1, open);
      if Failed(s2) then (s2, w2)
      else
        var (s3, w3) := PushEnd(w2, close);
        if Failed(s3) then (s3, w3)
        else (Ok, w3.(depth := w3.depth + 1))
  }

  function StartArray(w: View): (r: (Status, View))
    requires Bounded(w)
    ensures Bounded(r.1)
    ensures Inv(w) ==> Inv(r.1)
  {
    StartContainer(w, '[', ']')
  }

  function StartObject(w: View): (r: (Status, View))
    requires Bounded(w)
    ensures Bounded(r.1)
    ensures Inv(w) ==> Inv(r.1)
  {
    StartContainer(w, '{', '}')
  }

  /** mj_writer_end: close the innermost container, or end the top-level
      value at depth 0, or refuse below that. Only a status is returned. */
  function End(w: View): (r: (Status, View))
    requires Inv(w)
    ensures Inv(r.1)
  {
    if w.depth == 0 then
      var (s1, w1) := PushStart(w, '\0');
      if Failed(s1) then (s1, w1) else (Ok, w1.(depth := w1.depth - 1))
    else if w.depth > 0 then
      var (c, w1) := PopEnd(w);
      var (_, w2) := PushStart(w1, c);
      (Ok, w2.(depth := w2.depth - 1))
    else
      (InvalidState, w)
  }

  /** mj_writer_put_key: separator, quoted key, ':'. */
  function PutKey(w: View, key: seq<char>): (r: (Status, View))
    requires Bounded(w)
    ensures Bounded(r.1)
    ensures Inv(w) ==> Inv(r.1)
  {
    var (s1, w1) := Comma(w);
    if Failed(s1) then (s1, w1)
    else
      var (s2, w2) := PushJsonString(w1, key);
      if Failed(s2) then (s2, w2)
      else PushStart(w2, ':')
  }

  /** mj_writer_put_bool: separator, then "true" for a nonzero `val`,
      "false" for zero. */
  function PutBool(w: View, val: int): (r: (Status, View))
    requires Bounded(w)
    ensures Bounded(r.1)
    ensures Inv(w) ==> Inv(r.1)
  {
    var (s1, w1) := Comma(w);
    if Failed(s1) then (s1, w1)
    else PushString(w1, BoolText(val != 0))
  }

  /** mj_writer_put_string: separator, then the quoted string. */
  function PutString(w: View, s: seq<char>): (r: (Status, View))
    requires Bounded(w)
    ensures Bounded(r.1)
    ensures Inv(w) ==> Inv(r.1)
  {
    var (s1, w1) := Comma(w);
    if Failed(s1) then (s1, w1)
    else PushJsonString(w1, s)
  }

  // What each operation does, one lemma per operation.

  /** push_start succeeds exactly when a free byte is left, and then
      `c` lands at the old sp; on NoMem nothing changes. */
  lemma PushStartWrites(w: View, c: char)
    requires Bounded(w)
    ensures var r := PushStart(w, c);
      AppendsAtomically(w, r, [c]) &&
      (r.0 == Ok ==> Sp(r.1) == Sp(w) + 1 && r.1.content[Sp(w)] == c) &&
      (Inv(w) ==> Inv(r.1))
  {
  }

  /** push_end succeeds exactly when a free byte is left, and then `c`
      is the new top of the stack at ep - 1; on NoMem nothing changes. */
  lemma PushEndStacks(w: View, c: char)
    requires Bounded(w)
    ensures var r := PushEnd(w, c);
      (r.0 == Ok <==> Sp(w) < Ep(w)) &&
      (r.0 == Ok ==> Ep(r.1) == Ep(w) - 1 && r.1.stack == [c] + w.stack) &&
      (r.0 != Ok ==> r == (NoMem, w)) &&
      r.1.content == w.content && r.1.depth == w.depth && r.1.cap == w.cap
  {
  }

  /** pop_end hands back the top of the stack, which is a closer, and
      frees its byte. */
  lemma PopEndUnstacks(w: View)
    requires Bounded(w) && |w.stack| > 0
    ensures var r := PopEnd(w);
      Ep(r.1) == Ep(w) + 1 && w.stack == [r.0] + r.1.stack &&
      r.1.content == w.content && r.1.depth == w.depth && r.1.cap == w.cap &&
      (Inv(w) ==> IsCloser(r.0))
  {
  }

  /** push_string is all-or-nothing. */
  lemma PushStringWrites(w: View, s: seq<char>)
    requires Bounded(w)
    ensures AppendsAtomically(w, PushString(w, s), s)
    ensures Inv(w) ==> Inv(PushString(w, s).1)
  {
  }

  /** push_json_string is all-or-nothing and copies the string between
      the quotes unchanged. */
  lemma PushJsonStringWrites(w: View, s: seq<char>)
    requires Bounded(w)
    ensures var r := PushJsonString(w, s);
      AppendsAtomically(w, r, Quoted(s)) &&
      (r.0 == Ok ==> r.1.content[Sp(w) + 1 .. Sp(w) + 1 + |s|] == s) &&
      (Inv(w) ==> Inv(r.1))
  {
    var r := PushJsonString(w, s);
    if r.0 == Ok {
      assert r.1.content == w.content + Quoted(s);
    }
  }

  /** comma follows the separator rule and never fails when no comma is
      due. */
  lemma CommaWrites(w: View)
    requires Bounded(w)
    ensures AppendsAtomically(w, Comma(w), Sep(w.content))
    ensures Inv(w) ==> Inv(Comma(w).1)
  {
    if NeedsComma(w.content) {
      PushStartWrites(w, ',');
    }
  }

  /** Opening a container writes the separator and the opener and stacks
      the matching closer, one level deeper. It is not all-or-nothing: when
      the closer does not fit, the separator and the opener stay written
      and depth is unchanged. It keeps the invariant and the depth
      tracking. */
  lemma {:induction false} StartContainerOpens(w: View, open: char, close: char)
    requires Bounded(w)
    ensures var r := StartContainer(w, open, close);
      (r.0 == Ok <==> Sp(w) + |Sep(w.content)| + 2 <= Ep(w)) &&
      (r.0 == Ok ==>
        r.1 == View(w.content + Sep(w.content) + [open], [close] + w.stack, w.depth + 1, w.cap)) &&
      (r.0 != Ok ==>
        r.0 == NoMem && r.1.stack == w.stack && r.1.depth == w.depth && r.1.cap == w.cap &&
        w.content <= r.1.content <= w.content + Sep(w.content) + [open]) &&
      (Inv(w) && IsCloser(close) ==> Inv(r.1)) &&
      (Tracking(w) ==> Tracking(r.1))
  {
    CommaWrites(w);
    var (s1, w1) := Comma(w);
    if s1 == Ok {
      PushStartWrites(w1, open);
      var (s2, w2) := PushStart(w1, open);
      if s2 == Ok {
        PushEndStacks(w2, close);
      }
    }
  }

  lemma StartArrayOpens(w: View)
    requires Bounded(w)
    ensures var r := StartArray(w);
      (r.0 == Ok <==> Sp(w) + |Sep(w.content)| + 2 <= Ep(w)) &&
      (r.0 == Ok ==> r.1 == View(w.content + Sep(w.content) + "[", "]" + w.stack, w.depth + 1, w.cap)) &&
      (r.0 != Ok ==> r.0 == NoMem && r.1.stack == w.stack && r.1.depth == w.depth &&
                     w.content <= r.1.content <= w.content + Sep(w.content) + "[") &&
      (Inv(w) ==> Inv(r.1)) && (Tracking(w) ==> Tracking(r.1))
  {
    StartContainerOpens(w, '[', ']');
  }

  lemma StartObjectOpens(w: View)
    requires Bounded(w)
    ensures var r := StartObject(w);
      (r.0 == Ok <==> Sp(w) + |Sep(w.content)| + 2 <= Ep(w)) &&
      (r.0 == Ok ==> r.1 == View(w.content + Sep(w.content) + "{", "}" + w.stack, w.depth + 1, w.cap)) &&
      (r.0 != Ok ==> r.0 == NoMem && r.1.stack == w.stack && r.1.depth == w.depth &&
                     w.content <= r.1.content <= w.content + Sep(w.content) + "{") &&
      (Inv(w) ==> Inv(r.1)) && (Tracking(w) ==> Tracking(r.1))
  {
    StartContainerOpens(w, '{', '}');
  }

  /** end inside a container moves the innermost closer from the stack to
      the content, and cannot fail since the pop has just freed a byte. At
      depth 0 it writes the terminating NUL and leaves depth at -1, or
      fails with nothing changed. Below depth 0 it reports InvalidState
      and changes nothing. */
  lemma EndCloses(w: View)
    requires Inv(w)
    ensures var r := End(w);
      Inv(r.1) &&
      (w.depth > 0 ==>
        r.0 == Ok && r.1 == View(w.content + [w.stack[0]], w.stack[1..], w.depth - 1, w.cap)) &&
      (w.depth == 0 ==>
        (r.0 == Ok <==> Sp(w) < Ep(w)) &&
        (r.0 == Ok ==> r.1 == View(w.content + ['\0'], w.stack, -1, w.cap)) &&
        (r.0 != Ok ==> r == (NoMem, w))) &&
      (w.depth < 0 ==> r == (InvalidState, w)) &&
      (Tracking(w) && w.depth > 0 ==> Tracking(r.1))
  {
    if w.depth > 0 {
      PopEndUnstacks(w);
      var (c, w1) := PopEnd(w);
      PushStartWrites(w1, c);
      assert Inv(w1.(depth := w1.depth - 1));
    } else if w.depth == 0 {
      PushStartWrites(w, '\0');
    }
  }

  /** put_key appends separator, quoted key and ':', after which no comma
      is due; on failure a prefix of that may stay written. */
  lemma PutKeyWrites(w: View, key: seq<char>)
    requires Bounded(w)
    ensures var r := PutKey(w, key);
      Appends(w, r, Sep(w.content) + Quoted(key) + ":") &&
      (r.0 == Ok ==> !NeedsComma(r.1.content)) &&
      (Inv(w) ==> Inv(r.1))
  {
    var text := Sep(w.content) + Quoted(key) + ":";
    CommaWrites(w);
    var (s1, w1) := Comma(w);
    if s1 == Ok {
      assert w1.content == w.content + Sep(w.content);
      PushJsonStringWrites(w1, key);
      var (s2, w2) := PushJsonString(w1, key);
      if s2 == Ok {
        PushStartWrites(w2, ':');
        assert w2.content + ":" == w.content + text;
      } else {
        assert w2.content == w.content + Sep(w.content);
        assert w.content + text == w2.content + (Quoted(key) + ":");
      }
    } else {
      assert w.content + text == w.content + Sep(w.content) + (Quoted(key) + ":");
    }
  }

  /** put_bool appends separator and "true" or "false". */
  lemma PutBoolWrites(w: View, val: int)
    requires Bounded(w)
    ensures Appends(w, PutBool(w, val), Sep(w.content) + BoolText(val != 0))
    ensures Inv(w) ==> Inv(PutBool(w, val).1)
  {
    CommaWrites(w);
    var (s1, w1) := Comma(w);
    if s1 == Ok {
      PushStringWrites(w1, BoolText(val != 0));
    }
  }

  /** put_string appends separator and the quoted string. */
  lemma PutStringWrites(w: View, s: seq<char>)
    requires Bounded(w)
    ensures Appends(w, PutString(w, s), Sep(w.content) + Quoted(s))
    ensures Inv(w) ==> Inv(PutString(w, s).1)
  {
    CommaWrites(w);
    var (s1, w1) := Comma(w);
    if s1 == Ok {
      PushJsonStringWrites(w1, s);
    }
  }

  /** The source's push_json_string writes the same bytes as the modelled
      one and moves the cursors the same way, but yields no status exactly
      when the modelled one reports Ok. */
  lemma AsWrittenLosesOnlyTheStatus(w: View, s: seq<char>)
    requires Bounded(w)
    ensures PushJsonStringAsWritten(w, s).1 == PushJsonString(w, s).1
    ensures PushJsonStringAsWritten(w, s).0 == None <==> PushJsonString(w, s).0 == Ok
  {
  }

  /** A concrete case: a two-byte string into eight free bytes is written
      in full, and the caller of the source gets no status for it. */
  lemma MissingReturnExample()
    ensures PushJsonStringAsWritten(Init(8), "ab") == (None, View("\"ab\"", [], 0, 8))
    ensures PushJsonString(Init(8), "ab") == (Ok, View("\"ab\"", [], 0, 8))
  {
    var empty: seq<char> := [];
    assert Quoted("ab") == "\"ab\"";
    assert empty + Quoted("ab") == "\"ab\"";
  }

  /** start_array is not all-or-nothing: with one free byte it writes '['
      and then fails to push ']', leaving depth at 0. */
  lemma StartArrayPartialWriteExample()
    ensures StartArray(Init(1)) == (NoMem, View("[", [], 0, 1))
  {
    assert [] + ['['] == "[";
  }
}
