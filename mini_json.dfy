/** The writer itself: a fixed buffer of `bufferLen` bytes written from
    both ends, with the text growing up from 0 and the stack of pending
    closers growing down from `bufferLen`.

    Every method is proved against the function of the same name in
    WriterModel, through `Model()`, the view of the buffer those functions
    work on; what those functions do is proved there and in JsonText. */
module MiniJson {
  import opened WriterModel
  import opened JsonText

  /** mj_writer_t. */
  class Writer {
    const buffer: array<char>
    const bufferLen: int
    var sp: int
    var ep: int
    var depth: int

    /** 0 <= sp <= ep <= buffer_len, inside the array. */
    ghost predicate Bounds()
      reads this
    {
      0 <= sp <= ep <= bufferLen <= buffer.Length
    }

    /** The writer invariant of WriterModel, on the buffer. */
    ghost predicate Valid()
      reads this, buffer
    {
      Bounds() && Inv(Model())
    }

    /** The emitted text, the stack of closers, the depth and the capacity. */
    ghost function Model(): (m: View)
      reads this, buffer
      requires Bounds()
      ensures Bounded(m) && Sp(m) == sp && Ep(m) == ep
    {
      View(buffer[..sp], buffer[ep..bufferLen], depth, bufferLen)
    }

    /** mj_writer_init: the whole buffer is free, nothing is open. */
    constructor Init(buf: array<char>, len: int)
      requires 0 <= len <= buf.Length
      ensures buffer == buf && Valid()
      ensures Model() == WriterModel.Init(len) && Tracking(Model())
    {
      buffer := buf;
      bufferLen := len;
      sp := 0;
      ep := len;
      depth := 0;
    }

    /** push_start. */
    method PushStart(c: char) returns (status: Status)
      requires Bounds()
      modifies this, buffer
      ensures Bounds() && buffer[bufferLen..] == old(buffer[bufferLen..])
      ensures (status, Model()) == WriterModel.PushStart(old(Model()), c)
      ensures Failed(status) ==> buffer[..] == old(buffer[..])
    {
      if sp < ep {
        buffer[sp] := c;
        sp := sp + 1;
        status := Ok;
        assert buffer[..sp] == old(buffer[..sp]) + [c];
        assert buffer[ep..bufferLen] == old(buffer[ep..bufferLen]);
      } else {
        status := NoMem;
      }
    }

    /** push_end. */
    method PushEnd(c: char) returns (status: Status)
      requires Bounds()
      modifies this, buffer
      ensures Bounds() && buffer[bufferLen..] == old(buffer[bufferLen..])
      ensures (status, Model()) == WriterModel.PushEnd(old(Model()), c)
      ensures Failed(status) ==> buffer[..] == old(buffer[..])
    {
      if ep > sp {
        ep := ep - 1;
        buffer[ep] := c;
        status := Ok;
        assert buffer[..sp] == old(buffer[..sp]);
        assert buffer[ep..bufferLen] == [c] + old(buffer[ep..bufferLen]);
      } else {
        status := NoMem;
      }
    }

    /** pop_end: the caller guarantees a stacked closer. */
    method PopEnd() returns (c: char)
      requires Bounds() && ep < bufferLen
      modifies this
      ensures Bounds()
      ensures (c, Model()) == WriterModel.PopEnd(old(Model()))
    {
      c := buffer[ep];
      ep := ep + 1;
    }

    /** push_string: all of `s` or nothing. */
    method PushString(s: seq<char>) returns (status: Status)
      requires Bounds()
      modifies this, buffer
      ensures Bounds() && buffer[bufferLen..] == old(buffer[bufferLen..])
      ensures (status, Model()) == WriterModel.PushString(old(Model()), s)
      ensures Failed(status) ==> buffer[..] == old(buffer[..])
    {
      var len := |s|;
      if sp + len > ep {
        return NoMem;
      }
      for i := 0 to len
        invariant sp == old(sp) + i && ep == old(ep) && depth == old(depth)
        invariant buffer[..sp] == old(buffer[..sp]) + s[..i]
        invariant buffer[ep..bufferLen] == old(buffer[ep..bufferLen])
        invariant buffer[bufferLen..] == old(buffer[bufferLen..])
      {
        buffer[sp] := s[i];
        sp := sp + 1;
        assert s[..i + 1] == s[..i] + [s[i]];
      }
      assert s[..len] == s;
      status := Ok;
    }

    /** push_json_string with Ok on success, where the source has no return
        statement (see WriterModel.PushJsonStringAsWritten). */
    method PushJsonString(s: seq<char>) returns (status: Status)
      requires Bounds()
      modifies this, buffer
      ensures Bounds() && buffer[bufferLen..] == old(buffer[bufferLen..])
      ensures (status, Model()) == WriterModel.PushJsonString(old(Model()), s)
      ensures Failed(status) ==> buffer[..] == old(buffer[..])
    {
      var len := |s|;
      if sp + len + 2 > ep {
        return NoMem;
      }
      buffer[sp] := '"';
      sp := sp + 1;
      for i := 0 to len
        invariant sp == old(sp) + 1 + i && ep == old(ep) && depth == old(depth)
        invariant buffer[..sp] == old(buffer[..sp]) + ['"'] + s[..i]
        invariant buffer[ep..bufferLen] == old(buffer[ep..bufferLen])
        invariant buffer[bufferLen..] == old(buffer[bufferLen..])
      {
        buffer[sp] := s[i];
        sp := sp + 1;
        assert s[..i + 1] == s[..i] + [s[i]];
      }
      assert s[..len] == s;
      ghost var copied := buffer[..sp];
      buffer[sp] := '"';
      sp := sp + 1;
      status := Ok;
      assert buffer[..sp] == copied + ['"'] == old(buffer[..sp]) + Quoted(s);
      assert buffer[ep..bufferLen] == old(buffer[ep..bufferLen]);
    }

    /** comma: the separator rule. */
    method Comma() returns (status: Status)
      requires Bounds()
      modifies this, buffer
      ensures Bounds() && buffer[bufferLen..] == old(buffer[bufferLen..])
      ensures (status, Model()) == WriterModel.Comma(old(Model()))
    {
      if sp == 0 {
        return Ok;
      }
      var prev := buffer[sp - 1];
      if prev == '{' || prev == '[' || prev == ':' {
        return Ok;
      }
      status := PushStart(',');
    }

    /** The body shared by mj_writer_start_array and mj_writer_start_object. */
    method StartContainer(open: char, close: char) returns (status: Status)
      requires Bounds()
      modifies this, buffer
      ensures Bounds() && buffer[bufferLen..] == old(buffer[bufferLen..])
      ensures (status, Model()) == WriterModel.StartContainer(old(Model()), open, close)
    {
      status := Comma();
      if Failed(status) {
        return;
      }
      status := PushStart(open);
      if Failed(status) {
        return;
      }
      status := PushEnd(close);
      if Failed(status) {
        return;
      }
      depth := depth + 1;
      status := Ok;
    }

    /** mj_writer_start_array. */
    method StartArray() returns (status: Status)
      requires Valid()
      modifies this, buffer
      ensures Valid() && buffer[bufferLen..] == old(buffer[bufferLen..])
      ensures (status, Model()) == WriterModel.StartArray(old(Model()))
    {
      status := StartContainer('[', ']');
    }

    /** mj_writer_start_object. */
    method StartObject() returns (status: Status)
      requires Valid()
      modifies this, buffer
      ensures Valid() && buffer[bufferLen..] == old(buffer[bufferLen..])
      ensures (status, Model()) == WriterModel.StartObject(old(Model()))
    {
      status := StartContainer('{', '}');
    }

    /** mj_writer_end. */
    method End() returns (status: Status)
      requires Valid()
      modifies this, buffer
      ensures Valid() && buffer[bufferLen..] == old(buffer[bufferLen..])
      ensures (status, Model()) == WriterModel.End(old(Model()))
    {
      if depth == 0 {
        status := PushStart('\0');
        if Failed(status) {
          return;
        }
      } else if depth > 0 {
        var c := PopEnd();
        var _ := PushStart(c);
      } else {
        return InvalidState;
      }
      depth := depth - 1;
      status := Ok;
    }

    /** mj_writer_put_key. */
    method PutKey(key: seq<char>) returns (status: Status)
      requires Valid()
      modifies this, buffer
      ensures Valid() && buffer[bufferLen..] == old(buffer[bufferLen..])
      ensures (status, Model()) == WriterModel.PutKey(old(Model()), key)
    {
      status := Comma();
      if Failed(status) {
        return;
      }
      status := PushJsonString(key);
      if Failed(status) {
        return;
      }
      status := PushStart(':');
    }

    /** mj_writer_put_bool. */
    method PutBool(val: int) returns (status: Status)
      requires Valid()
      modifies this, buffer
      ensures Valid() && buffer[bufferLen..] == old(buffer[bufferLen..])
      ensures (status, Model()) == WriterModel.PutBool(old(Model()), val)
    {
      status := Comma();
      if Failed(status) {
        return;
      }
      status := PushString(if val != 0 then "true" else "false");
    }

    /** mj_writer_put_string. */
    method PutString(s: seq<char>) returns (status: Status)
      requires Valid()
      modifies this, buffer
      ensures Valid() && buffer[bufferLen..] == old(buffer[bufferLen..])
      ensures (status, Model()) == WriterModel.PutString(old(Model()), s)
    {
      status := Comma();
      if Failed(status) {
        return;
      }
      status := PushJsonString(s);
    }
  }

  /** One writer call. */
  method Emit(w: Writer, op: Op) returns (status: Status)
    requires w.Valid()
    modifies w, w.buffer
    ensures w.Valid()
    ensures (status, w.Model()) == JsonText.Apply(old(w.Model()), op)
  {
    match op
    case StartArrayOp => status := w.StartArray();
    case StartObjectOp => status := w.StartObject();
    case EndOp => status := w.End();
    case PutKeyOp(key) => status := w.PutKey(key);
    case PutBoolOp(val) => status := w.PutBool(val);
    case PutStringOp(s) => status := w.PutString(s);
  }

  /** A client that makes its calls in the demonstration program's order
      (a writer over a fresh buffer of `len` bytes, the calls for `v`, then
      the top-level end) but, unlike that program, stops at the first
      failing status. It succeeds exactly when the text of `v` and
      its NUL fit, and then the buffer holds that text and the NUL. */
  method Render(v: Value, len: int) returns (status: Status, text: seq<char>)
    requires len >= 0
    ensures status == Ok <==> |Text(v)| + 1 <= len
    ensures status == Ok ==> text == Text(v) + ['\0']
  {
    var buf := new char[len];
    var w := new Writer.Init(buf, len);
    var ops := Calls(v) + [EndOp];
    ghost var m0 := w.Model();
    status := Ok;
    var i := 0;
    while i < |ops| && status == Ok
      invariant 0 <= i <= |ops|
      invariant fresh(w) && fresh(w.buffer) && w.Valid()
      invariant status == Ok ==> Run(m0, ops) == Run(w.Model(), ops[i..])
      invariant status != Ok ==> Run(m0, ops) == (status, w.Model())
      decreases |ops| - i
    {
      ghost var m := w.Model();
      status := Emit(w, ops[i]);
      assert ops[i..][0] == ops[i] && ops[i..][1..] == ops[i + 1..];
      assert Run(m, ops[i..]) ==
        (var r := Apply(m, ops[i]); if r.0 != Ok then r else Run(r.1, ops[i + 1..]));
      i := i + 1;
    }
    if status == Ok {
      assert ops[i..] == [];
    }
    text := w.buffer[..w.sp];
    WritesDocument(v, len);
  }
}
