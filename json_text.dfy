/** What a sequence of writer calls produces.

    A caller builds one JSON value (sections 4 and 5 of RFC 8259) by
    calling the public writer operations in order and giving up at the
    first call that does not return Ok. This module gives the value tree,
    its text, the calls that write it, and proves that those calls leave
    exactly that text in the buffer. Strings are written without escaping,
    so `Text` is the text the writer produces, which is RFC 8259 JSON when
    no string or key needs an escape. */
module JsonText {
  import opened WriterModel

  datatype Value =
    | Bool(b: bool)
    | Str(s: string)
    | Array(items: seq<Value>)
    | Object(members: seq<Member>)

  datatype Member = Member(key: string, value: Value)

  /** The public operations of the writer, one constructor per call. */
  datatype Op =
    | StartArrayOp
    | StartObjectOp
    | EndOp
    | PutKeyOp(key: string)
    | PutBoolOp(val: int)
    | PutStringOp(s: string)

  /** The text of a value: elements and members separated by ',', a key
      followed by ':'. */
  function Text(v: Value): string
    decreases v
  {
    match v
    case Bool(b) => BoolText(b)
    case Str(s) => Quoted(s)
    case Array(items) => "[" + ItemsText(items) + "]"
    case Object(members) => "{" + MembersText(members) + "}"
  }

  function ItemsText(items: seq<Value>): string
    decreases items
  {
    if items == [] then "" else Text(items[0]) + MoreItemsText(items[1..])
  }

  /** Each further element, preceded by its separator. */
  function MoreItemsText(items: seq<Value>): string
    decreases items
  {
    if items == [] then "" else "," + Text(items[0]) + MoreItemsText(items[1..])
  }

  function MemberText(m: Member): string
    decreases m
  {
    Quoted(m.key) + ":" + Text(m.value)
  }

  function MembersText(members: seq<Member>): string
    decreases members
  {
    if members == [] then "" else MemberText(members[0]) + MoreMembersText(members[1..])
  }

  function MoreMembersText(members: seq<Member>): string
    decreases members
  {
    if members == [] then "" else "," + MemberText(members[0]) + MoreMembersText(members[1..])
  }

  /** The writer calls that produce a value. */
  function Calls(v: Value): seq<Op>
    decreases v
  {
    match v
    case Bool(b) => [PutBoolOp(if b then 1 else 0)]
    case Str(s) => [PutStringOp(s)]
    case Array(items) => [StartArrayOp] + ItemCalls(items) + [EndOp]
    case Object(members) => [StartObjectOp] + MemberCalls(members) + [EndOp]
  }

  function ItemCalls(items: seq<Value>): seq<Op>
    decreases items
  {
    if items == [] then [] else Calls(items[0]) + ItemCalls(items[1..])
  }

  function MemberCalls(members: seq<Member>): seq<Op>
    decreases members
  {
    if members == [] then []
    else [PutKeyOp(members[0].key)] + Calls(members[0].value) + MemberCalls(members[1..])
  }

  /** One public call. */
  function Apply(w: View, op: Op): (r: (Status, View))
    requires Inv(w)
    ensures Inv(r.1)
  {
    match op
    case StartArrayOp => StartArray(w)
    case StartObjectOp => StartObject(w)
    case EndOp => End(w)
    case PutKeyOp(key) => PutKey(w, key)
    case PutBoolOp(val) => PutBool(w, val)
    case PutStringOp(s) => PutString(w, s)
  }

  /** A caller that checks every status and stops at the first failure. */
  function Run(w: View, ops: seq<Op>): (r: (Status, View))
    requires Inv(w)
    ensures Inv(r.1)
    decreases |ops|
  {
    if ops == [] then (Ok, w)
    else
      var (st, w1) := Apply(w, ops[0]);
      if st != Ok then (st, w1) else Run(w1, ops[1..])
  }

  /** A caller that ignores every status, as the demonstration program in
      main.c does: every call is made, and only the status of the last one
      is kept. */
  function RunAll(w: View, ops: seq<Op>): (r: (Status, View))
    requires Inv(w)
    ensures Inv(r.1)
    decreases |ops|
  {
    if ops == [] then (Ok, w)
    else if |ops| == 1 then Apply(w, ops[0])
    else RunAll(Apply(w, ops[0]).1, ops[1..])
  }

  /** When the checking caller gets through, the ignoring caller makes the
      same calls and ends in the same state. */
  lemma {:induction false} RunAllAgreesOnSuccess(w: View, ops: seq<Op>)
    requires Inv(w) && Run(w, ops).0 == Ok
    ensures RunAll(w, ops) == Run(w, ops)
    decreases |ops|
  {
    if |ops| > 1 {
      RunAllAgreesOnSuccess(Apply(w, ops[0]).1, ops[1..]);
    } else if |ops| == 1 {
      var r := Apply(w, ops[0]);
      assert Run(r.1, ops[1..]) == (Ok, r.1);
    }
  }

  /** Ignoring statuses hides a truncation: in 3 bytes, an array holding
      "abc" does not fit, the string is dropped with NoMem, and yet the
      closing calls go on and the last end reports Ok over the text
      `[]` NUL. The checking caller stops at the NoMem. */
  lemma IgnoringStatusesHidesTruncation()
    ensures |Text(Array([Str("abc")]))| + 1 > 3
    ensures RunAll(Init(3), [StartArrayOp, PutStringOp("abc"), EndOp, EndOp]) ==
      (Ok, View("[]\0", [], -1, 3))
    ensures Run(Init(3), [StartArrayOp, PutStringOp("abc"), EndOp, EndOp]) ==
      (NoMem, View("[", "]", 1, 3))
  {
    var w0 := Init(3);
    var w1 := View("[", "]", 1, 3);
    var w2 := View("[]", "", 0, 3);
    var w3 := View("[]\0", "", -1, 3);
    assert Text(Array([Str("abc")])) == "[" + "\"abc\"" + "]";
    assert Apply(w0, StartArrayOp) == (Ok, w1) by {
      assert w0 == View([], [], 0, 3);
      assert Sep(w0.content) == [];
      StartArrayOpens(w0);
      assert w0.content + Sep(w0.content) + "[" == "[";
      assert "]" + w0.stack == "]";
      assert Apply(w0, StartArrayOp) == StartArray(w0);
    }
    assert Apply(w1, PutStringOp("abc")) == (NoMem, w1) by {
      assert Sep(w1.content) == [];
      PutStringWrites(w1, "abc");
      assert Apply(w1, PutStringOp("abc")) == PutString(w1, "abc");
    }
    assert Apply(w1, EndOp) == (Ok, w2) by {
      EndCloses(w1);
      assert "[" + "]" == "[]";
    }
    assert Apply(w2, EndOp) == (Ok, w3) by {
      EndCloses(w2);
      assert "[]" + "\0" == "[]\0";
    }
    var ops := [StartArrayOp, PutStringOp("abc"), EndOp, EndOp];
    assert ops[1..] == [PutStringOp("abc"), EndOp, EndOp];
    assert ops[1..][1..] == [EndOp, EndOp];
    assert ops[1..][1..][1..] == [EndOp];
    assert RunAll(w2, [EndOp]) == (Ok, w3);
    assert RunAll(w1, [EndOp, EndOp]) == (Ok, w3);
    assert RunAll(w1, ops[1..]) == (Ok, w3);
  }

  /** Ignoring statuses can also leave text that is not JSON: put_string
      writes its comma before the quoted string fails to fit, and the two
      ends that follow still report Ok, over `[true,]` NUL. */
  lemma IgnoringStatusesLeavesDanglingComma()
    ensures RunAll(Init(8), [StartArrayOp, PutBoolOp(1), PutStringOp("abc"), EndOp, EndOp]) ==
      (Ok, View("[true,]\0", [], -1, 8))
  {
    var w0 := Init(8);
    var w1 := View("[", "]", 1, 8);
    var w2 := View("[true", "]", 1, 8);
    var w3 := View("[true,", "]", 1, 8);
    var w4 := View("[true,]", "", 0, 8);
    var w5 := View("[true,]\0", "", -1, 8);
    assert Apply(w0, StartArrayOp) == (Ok, w1) by {
      assert w0 == View([], [], 0, 8);
      assert Sep(w0.content) == [];
      StartArrayOpens(w0);
      assert w0.content + Sep(w0.content) + "[" == "[";
      assert "]" + w0.stack == "]";
      assert Apply(w0, StartArrayOp) == StartArray(w0);
    }
    assert Apply(w1, PutBoolOp(1)) == (Ok, w2) by {
      assert Sep(w1.content) == [];
      PutBoolWrites(w1, 1);
      assert w1.content + (Sep(w1.content) + BoolText(1 != 0)) == "[true";
      assert Apply(w1, PutBoolOp(1)) == PutBool(w1, 1);
    }
    assert Apply(w2, PutStringOp("abc")) == (NoMem, w3) by {
      assert Sep(w2.content) == ",";
      PutStringWrites(w2, "abc");
      CommaWrites(w2);
      assert Comma(w2) == (Ok, w3) by {
        assert w2.content + "," == "[true,";
      }
      PushJsonStringWrites(w3, "abc");
      assert Apply(w2, PutStringOp("abc")) == PutString(w2, "abc");
    }
    assert Apply(w3, EndOp) == (Ok, w4) by {
      EndCloses(w3);
      assert "[true," + "]" == "[true,]";
    }
    assert Apply(w4, EndOp) == (Ok, w5) by {
      EndCloses(w4);
      assert "[true,]" + "\0" == "[true,]\0";
    }
    var ops := [StartArrayOp, PutBoolOp(1), PutStringOp("abc"), EndOp, EndOp];
    assert ops[1..] == [PutBoolOp(1), PutStringOp("abc"), EndOp, EndOp];
    assert ops[1..][1..] == [PutStringOp("abc"), EndOp, EndOp];
    assert ops[1..][1..][1..] == [EndOp, EndOp];
    assert ops[1..][1..][1..][1..] == [EndOp];
    assert RunAll(w4, [EndOp]) == (Ok, w5);
    assert RunAll(w3, [EndOp, EndOp]) == (Ok, w5);
    assert RunAll(w2, [PutStringOp("abc"), EndOp, EndOp]) == (Ok, w5);
    assert RunAll(w1, ops[1..]) == (Ok, w5);
  }

  /** How many calls of a run end the top-level value successfully. */
  function TopLevelEnds(w: View, ops: seq<Op>): nat
    requires Inv(w)
    decreases |ops|
  {
    if ops == [] then 0
    else
      var (st, w1) := Apply(w, ops[0]);
      var here := if ops[0] == EndOp && w.depth == 0 && st == Ok then 1 else 0;
      if st != Ok then here else here + TopLevelEnds(w1, ops[1..])
  }

  /** One call keeps depth - |stack| unless it is a successful top-level
      end, which lowers it by one. */
  lemma StepOffset(w: View, op: Op)
    requires Inv(w)
    ensures var r := Apply(w, op);
      r.1.depth - |r.1.stack| ==
      w.depth - |w.stack| - (if op == EndOp && w.depth == 0 && r.0 == Ok then 1 else 0)
  {
    match op
    case StartArrayOp => StartArrayOpens(w);
    case StartObjectOp => StartObjectOpens(w);
    case EndOp => EndCloses(w);
    case PutKeyOp(key) => PutKeyWrites(w, key);
    case PutBoolOp(val) => PutBoolWrites(w, val);
    case PutStringOp(s) => PutStringWrites(w, s);
  }

  /** The closer stack tracks the depth up to an offset that only a
      successful top-level end changes, by one. So from a state where it
      tracks (the initial one), it goes on tracking exactly as long as the
      top-level end has not happened; the source does not forbid further
      calls after it, and a container opened then leaves its closer
      stranded on the stack. */
  lemma {:induction false} DepthOffset(w: View, ops: seq<Op>)
    requires Inv(w)
    ensures var r := Run(w, ops);
      r.1.depth - |r.1.stack| == w.depth - |w.stack| - TopLevelEnds(w, ops)
    decreases |ops|
  {
    if ops != [] {
      StepOffset(w, ops[0]);
      var r1 := Apply(w, ops[0]);
      if r1.0 == Ok {
        DepthOffset(r1.1, ops[1..]);
      }
    }
  }

  lemma TrackingUntilTopLevelEnd(w: View, ops: seq<Op>)
    requires Inv(w) && Tracking(w)
    ensures Tracking(Run(w, ops).1) <==> TopLevelEnds(w, ops) == 0
  {
    DepthOffset(w, ops);
  }

  /** A concrete run past the top-level end: after "[]" is finished,
      another array opens (with a separator after the NUL) at depth -1, and
      its end, now at depth 0, writes a second NUL and leaves the ']' on the
      stack. */
  lemma ReuseAfterEndStrandsCloser()
    ensures Run(Init(8), [StartArrayOp, EndOp, EndOp, StartArrayOp, EndOp]) ==
      (Ok, View("[]\0,[\0", "]", -1, 8))
  {
    var w0 := Init(8);
    var w1 := View("[", "]", 1, 8);
    var w2 := View("[]", "", 0, 8);
    var w3 := View("[]\0", "", -1, 8);
    var w4 := View("[]\0,[", "]", 0, 8);
    var w5 := View("[]\0,[\0", "]", -1, 8);
    assert Apply(w0, StartArrayOp) == (Ok, w1) by {
      assert w0 == View([], [], 0, 8);
      assert Sep(w0.content) == [];
      StartArrayOpens(w0);
      assert w0.content + Sep(w0.content) + "[" == "[";
      assert "]" + w0.stack == "]";
      assert Apply(w0, StartArrayOp) == StartArray(w0);
    }
    assert Apply(w1, EndOp) == (Ok, w2) by {
      EndCloses(w1);
      assert "[" + "]" == "[]";
    }
    assert Apply(w2, EndOp) == (Ok, w3) by {
      EndCloses(w2);
      assert "[]" + "\0" == "[]\0";
    }
    assert Apply(w3, StartArrayOp) == (Ok, w4) by {
      StartArrayOpens(w3);
      assert Sep(w3.content) == ",";
      assert "[]\0" + "," + "[" == "[]\0,[";
    }
    assert Apply(w4, EndOp) == (Ok, w5) by {
      EndCloses(w4);
      assert "[]\0,[" + "\0" == "[]\0,[\0";
    }
    assert Run(w4, [EndOp]) == (Ok, w5) by {
      RunCons(w4, EndOp, []);
      assert [EndOp] + [] == [EndOp];
    }
    assert Run(w3, [StartArrayOp, EndOp]) == (Ok, w5) by {
      RunCons(w3, StartArrayOp, [EndOp]);
      assert [StartArrayOp] + [EndOp] == [StartArrayOp, EndOp];
    }
    assert Run(w2, [EndOp, StartArrayOp, EndOp]) == (Ok, w5) by {
      RunCons(w2, EndOp, [StartArrayOp, EndOp]);
      assert [EndOp] + [StartArrayOp, EndOp] == [EndOp, StartArrayOp, EndOp];
    }
    assert Run(w1, [EndOp, EndOp, StartArrayOp, EndOp]) == (Ok, w5) by {
      RunCons(w1, EndOp, [EndOp, StartArrayOp, EndOp]);
      assert [EndOp] + [EndOp, StartArrayOp, EndOp] == [EndOp, EndOp, StartArrayOp, EndOp];
    }
    RunCons(w0, StartArrayOp, [EndOp, EndOp, StartArrayOp, EndOp]);
    assert [StartArrayOp] + [EndOp, EndOp, StartArrayOp, EndOp] ==
      [StartArrayOp, EndOp, EndOp, StartArrayOp, EndOp];
  }

  /** Running `[op] + rest` runs `op`, then `rest` if `op` succeeded. */
  lemma RunCons(w: View, op: Op, rest: seq<Op>)
    requires Inv(w)
    ensures Run(w, [op] + rest) ==
      (var r := Apply(w, op); if r.0 == Ok then Run(r.1, rest) else r)
  {
    assert ([op] + rest)[0] == op && ([op] + rest)[1..] == rest;
  }

  /** Running `a + b` runs `a`, then `b` if `a` succeeded. */
  lemma {:induction false} RunConcat(w: View, a: seq<Op>, b: seq<Op>)
    requires Inv(w)
    ensures Run(w, a + b) ==
      (var r := Run(w, a); if r.0 == Ok then Run(r.1, b) else r)
    decreases |a|
  {
    if a == [] {
      assert a + b == b;
    } else {
      assert (a + b)[0] == a[0];
      assert (a + b)[1..] == a[1..] + b;
      var (st, w1) := Apply(w, a[0]);
      if st == Ok {
        RunConcat(w1, a[1..], b);
      }
    }
  }

  /** The text of every value ends in a byte after which the separator
      rule asks for a comma. */
  lemma TextNeedsComma(prefix: seq<char>, v: Value)
    ensures NeedsComma(prefix + Text(v))
  {
    var t := Text(v);
    var last := (prefix + t)[|prefix + t| - 1];
    match v
    case Bool(b) => assert last == 'e';
    case Str(s) => assert last == '"';
    case Array(items) => assert last == ']';
    case Object(members) => assert last == '}';
  }

  /** `ops`, run from `w`, append `text`: they succeed exactly when `text`
      fits in the free space, and then the content has grown by `text`
      and nothing else has changed. */
  predicate Writes(w: View, ops: seq<Op>, text: seq<char>)
    requires Inv(w)
  {
    var r := Run(w, ops);
    (r.0 == Ok <==> Sp(w) + |text| <= Ep(w)) &&
    (r.0 == Ok ==> r.1 == w.(content := w.content + text))
  }

  lemma WritesConcat(w: View, a: seq<Op>, ta: seq<char>, b: seq<Op>, tb: seq<char>)
    requires Inv(w) && Writes(w, a, ta)
    requires Sp(w) + |ta| <= Ep(w) ==> Writes(w.(content := w.content + ta), b, tb)
    ensures Writes(w, a + b, ta + tb)
  {
    RunConcat(w, a, b);
    assert w.content + ta + tb == w.content + (ta + tb);
  }

  /** One public call that appends `text`. */
  lemma WritesOne(w: View, op: Op, text: seq<char>)
    requires Inv(w) && Appends(w, Apply(w, op), text)
    ensures Writes(w, [op], text)
  {
    RunCons(w, op, []);
    assert [op] + [] == [op];
    var r := Apply(w, op);
    if r.0 == Ok {
      assert Run(r.1, []) == r;
    }
  }

  /** The calls for a value, from any open state, succeed exactly when the
      separator and the value's text fit in the free space, and then they
      append exactly that, leaving the stack and the depth as they were. */
  lemma {:induction false} WritesValue(v: Value, w: View)
    requires Inv(w) && w.depth >= 0
    ensures Writes(w, Calls(v), Sep(w.content) + Text(v))
    decreases v, 1
  {
    match v
    case Bool(b) =>
      assert BoolText(b) == BoolText((if b then 1 else 0) != 0);
      PutBoolWrites(w, if b then 1 else 0);
      WritesOne(w, PutBoolOp(if b then 1 else 0), Sep(w.content) + Text(v));
    case Str(s) =>
      PutStringWrites(w, s);
      WritesOne(w, PutStringOp(s), Sep(w.content) + Text(v));
    case Array(items) =>
      WritesContainer(v, w, '[', ']', ItemCalls(items), ItemsText(items));
    case Object(members) =>
      WritesContainer(v, w, '{', '}', MemberCalls(members), MembersText(members));
  }

  /** The common shape of an array and an object: opener and closer around
      the calls for the children. */
  lemma {:induction false} WritesContainer(v: Value, w: View, open: char, close: char,
                                           inner: seq<Op>, innerText: string)
    requires Inv(w) && w.depth >= 0
    requires (v.Array? && open == '[' && close == ']' &&
              inner == ItemCalls(v.items) && innerText == ItemsText(v.items)) ||
             (v.Object? && open == '{' && close == '}' &&
              inner == MemberCalls(v.members) && innerText == MembersText(v.members))
    ensures Writes(w, Calls(v), Sep(w.content) + Text(v))
    decreases v, 0
  {
    var start := if open == '[' then StartArrayOp else StartObjectOp;
    assert Calls(v) == [start] + (inner + [EndOp]);
    assert Text(v) == [open] + innerText + [close];
    StartContainerOpens(w, open, close);
    var r0 := StartContainer(w, open, close);
    assert Apply(w, start) == r0;
    RunCons(w, start, inner + [EndOp]);
    if r0.0 == Ok {
      var w1 := r0.1;
      assert Writes(w1, inner, innerText) by {
        assert w1.content[|w1.content| - 1] == open;
        if v.Array? {
          WritesItems(v.items, w1);
        } else {
          WritesMembers(v.members, w1);
        }
      }
      WritesBody(w, w1, open, close, inner, innerText);
    }
  }

  /** After the opener: the children, then the end that pops `close`. */
  lemma WritesBody(w: View, w1: View, open: char, close: char,
                   inner: seq<Op>, innerText: string)
    requires Inv(w) && w.depth >= 0
    requires w1 == View(w.content + Sep(w.content) + [open], [close] + w.stack,
                        w.depth + 1, w.cap)
    requires Inv(w1) && Writes(w1, inner, innerText)
    ensures var r := Run(w1, inner + [EndOp]);
      (r.0 == Ok <==> Sp(w) + |Sep(w.content)| + 2 + |innerText| <= Ep(w)) &&
      (r.0 == Ok ==>
        r.1 == w.(content := w.content + (Sep(w.content) + ([open] + innerText + [close]))))
  {
    RunConcat(w1, inner, [EndOp]);
    if Sp(w1) + |innerText| <= Ep(w1) {
      var w2 := w1.(content := w1.content + innerText);
      EndCloses(w2);
      RunCons(w2, EndOp, []);
      assert [EndOp] + [] == [EndOp];
      assert Run(End(w2).1, []) == End(w2);
      assert w2.content + [close] ==
        w.content + (Sep(w.content) + ([open] + innerText + [close]));
    }
  }

  lemma {:induction false} WritesItems(items: seq<Value>, w: View)
    requires Inv(w) && w.depth >= 0 && !NeedsComma(w.content)
    ensures Writes(w, ItemCalls(items), ItemsText(items))
    decreases items, 2
  {
    if items == [] {
      assert Run(w, []) == (Ok, w);
    } else {
      var first, rest := items[0], items[1..];
      assert Writes(w, Calls(first), Text(first)) by {
        WritesValue(first, w);
        assert Sep(w.content) + Text(first) == Text(first);
      }
      var w1 := w.(content := w.content + Text(first));
      assert Sp(w) + |Text(first)| <= Ep(w) ==> Writes(w1, ItemCalls(rest), MoreItemsText(rest)) by {
        if Sp(w) + |Text(first)| <= Ep(w) {
          TextNeedsComma(w.content, first);
          WritesMoreItems(rest, w1);
        }
      }
      WritesConcat(w, Calls(first), Text(first), ItemCalls(rest), MoreItemsText(rest));
    }
  }

  lemma {:induction false} WritesMoreItems(items: seq<Value>, w: View)
    requires Inv(w) && w.depth >= 0 && NeedsComma(w.content)
    ensures Writes(w, ItemCalls(items), MoreItemsText(items))
    decreases items, 2
  {
    if items == [] {
      assert Run(w, []) == (Ok, w);
    } else {
      var first, rest := items[0], items[1..];
      var t := "," + Text(first);
      assert Writes(w, Calls(first), t) by {
        WritesValue(first, w);
      }
      var w1 := w.(content := w.content + t);
      assert Sp(w) + |t| <= Ep(w) ==> Writes(w1, ItemCalls(rest), MoreItemsText(rest)) by {
        if Sp(w) + |t| <= Ep(w) {
          TextNeedsComma(w.content + ",", first);
          assert w.content + t == w.content + "," + Text(first);
          WritesMoreItems(rest, w1);
        }
      }
      WritesConcat(w, Calls(first), t, ItemCalls(rest), MoreItemsText(rest));
      assert t + MoreItemsText(rest) == MoreItemsText(items);
    }
  }

  /** One member: key, ':', then the value with no separator before it. */
  lemma {:induction false} WritesMember(m: Member, w: View)
    requires Inv(w) && w.depth >= 0
    ensures Writes(w, [PutKeyOp(m.key)] + Calls(m.value), Sep(w.content) + MemberText(m))
    decreases m, 3
  {
    var keyText := Sep(w.content) + Quoted(m.key) + [':'];
    assert Writes(w, [PutKeyOp(m.key)], keyText) by {
      PutKeyWrites(w, m.key);
      WritesOne(w, PutKeyOp(m.key), keyText);
    }
    var w1 := w.(content := w.content + keyText);
    assert Sp(w) + |keyText| <= Ep(w) ==> Writes(w1, Calls(m.value), Text(m.value)) by {
      if Sp(w) + |keyText| <= Ep(w) {
        assert !NeedsComma(w1.content);
        WritesValue(m.value, w1);
        assert Sep(w1.content) + Text(m.value) == Text(m.value);
      }
    }
    WritesConcat(w, [PutKeyOp(m.key)], keyText, Calls(m.value), Text(m.value));
    assert keyText + Text(m.value) == Sep(w.content) + MemberText(m);
  }

  lemma {:induction false} WritesMembers(members: seq<Member>, w: View)
    requires Inv(w) && w.depth >= 0 && !NeedsComma(w.content)
    ensures Writes(w, MemberCalls(members), MembersText(members))
    decreases members, 4
  {
    if members == [] {
      assert Run(w, []) == (Ok, w);
    } else {
      var first, rest := members[0], members[1..];
      var calls := [PutKeyOp(first.key)] + Calls(first.value);
      assert MemberCalls(members) == calls + MemberCalls(rest);
      assert Writes(w, calls, MemberText(first)) by {
        WritesMember(first, w);
        assert Sep(w.content) + MemberText(first) == MemberText(first);
      }
      var w1 := w.(content := w.content + MemberText(first));
      assert Sp(w) + |MemberText(first)| <= Ep(w) ==> Writes(w1, MemberCalls(rest), MoreMembersText(rest)) by {
        if Sp(w) + |MemberText(first)| <= Ep(w) {
          TextNeedsComma(w.content + Quoted(first.key) + ":", first.value);
          assert w1.content == w.content + Quoted(first.key) + ":" + Text(first.value);
          WritesMoreMembers(rest, w1);
        }
      }
      WritesConcat(w, calls, MemberText(first), MemberCalls(rest), MoreMembersText(rest));
    }
  }

  lemma {:induction false} WritesMoreMembers(members: seq<Member>, w: View)
    requires Inv(w) && w.depth >= 0 && NeedsComma(w.content)
    ensures Writes(w, MemberCalls(members), MoreMembersText(members))
    decreases members, 4
  {
    if members == [] {
      assert Run(w, []) == (Ok, w);
    } else {
      var first, rest := members[0], members[1..];
      var calls := [PutKeyOp(first.key)] + Calls(first.value);
      var t := "," + MemberText(first);
      assert MemberCalls(members) == calls + MemberCalls(rest);
      assert MoreMembersText(members) == t + MoreMembersText(rest);
      assert Writes(w, calls, t) by {
        WritesMember(first, w);
        assert Sep(w.content) == ",";
      }
      var w1 := w.(content := w.content + t);
      assert Sp(w) + |t| <= Ep(w) ==> Writes(w1, MemberCalls(rest), MoreMembersText(rest)) by {
        if Sp(w) + |t| <= Ep(w) {
          assert NeedsComma(w1.content) by {
            TextNeedsComma(w.content + "," + Quoted(first.key) + ":", first.value);
            assert w1.content == w.content + "," + Quoted(first.key) + ":" + Text(first.value);
          }
          WritesMoreMembers(rest, w1);
        }
      }
      WritesConcat(w, calls, t, MemberCalls(rest), MoreMembersText(rest));
    }
  }

  /** A whole document: after mj_writer_init over `len` bytes, the calls
      for `v` followed by the top-level end succeed exactly when the text
      and its terminating NUL fit in the buffer, and then the buffer holds
      the NUL-terminated text, every closer has been consumed and the
      depth is -1. */
  lemma WritesDocument(v: Value, len: int)
    requires len >= 0
    ensures var r := Run(Init(len), Calls(v) + [EndOp]);
      (r.0 == Ok <==> |Text(v)| + 1 <= len) &&
      (r.0 == Ok ==> r.1 == View(Text(v) + ['\0'], [], -1, len))
  {
    var w := Init(len);
    WritesValue(v, w);
    assert Sep(w.content) + Text(v) == Text(v);
    if |Text(v)| <= len {
      var w1 := View(Text(v), [], 0, len);
      EndCloses(w1);
      assert Run(w1, [EndOp]) == (var r := End(w1); if r.0 == Ok then Run(r.1, []) else r);
    }
    RunConcat(w, Calls(v), [EndOp]);
  }
}
