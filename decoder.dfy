/** The decoder `revise` (revision.cpp:117-161): a single left-to-right pass
    over the revision that copies ranges of the old content and inlines
    literals, and fails on the first malformed or out-of-range instruction. */
module Decoder {
  import opened Bytes
  import opened Instructions

  /** The bytes one instruction contributes, or None for a copy that reaches
      past the end of the old content. */
  function Step(oldContent: seq<Byte>, x: Instr): (r: Option<seq<Byte>>)
    ensures x.Copy? ==> (r.Some? <==> x.pos + x.len <= |oldContent|)
    ensures r.Some? && x.Copy? ==> r.value == oldContent[x.pos..x.pos + x.len]
    ensures x.Add? ==> r == Some(x.data)
  {
    match x
    case Copy(p, l) => if p + l <= |oldContent| then Some(oldContent[p..p + l]) else None
    case Add(data) => Some(data)
  }

  /** The output of a list of instructions: their contributions in order, or
      None as soon as one of them fails. */
  function Apply(oldContent: seq<Byte>, instrs: seq<Instr>): (r: Option<seq<Byte>>)
    ensures r.Some? <==> forall k :: 0 <= k < |instrs| ==> Step(oldContent, instrs[k]).Some?
  {
    if instrs == [] then Some([])
    else
      match Step(oldContent, instrs[0])
      case None => None
      case Some(out) =>
        match Apply(oldContent, instrs[1..])
        case None => None
        case Some(more) => Some(out + more)
  }

  /** Applying two lists one after the other is applying their concatenation. */
  lemma {:induction false} ApplyConcat(oldContent: seq<Byte>, a: seq<Instr>, b: seq<Instr>)
    ensures Apply(oldContent, a + b) ==
      match Apply(oldContent, a)
      case None => None
      case Some(x) =>
        match Apply(oldContent, b)
        case None => None
        case Some(y) => Some(x + y)
  {
    if a == [] {
      assert a + b == b;
      match Apply(oldContent, b)
      case None =>
      case Some(y) => assert [] + y == y;
    } else {
      assert (a + b)[0] == a[0];
      assert (a + b)[1..] == a[1..] + b;
      ApplyConcat(oldContent, a[1..], b);
      match Step(oldContent, a[0])
      case None =>
      case Some(out) =>
        match Apply(oldContent, a[1..])
        case None =>
        case Some(x) =>
          match Apply(oldContent, b)
          case None =>
          case Some(y) => assert out + (x + y) == (out + x) + y;
    }
  }

  /** Prepending an instruction that succeeds with `y` prepends `y`. */
  lemma {:induction false} ApplyCons(oldContent: seq<Byte>, x: Instr, rest: seq<Instr>, y: seq<Byte>, z: seq<Byte>)
    requires Step(oldContent, x) == Some(y)
    requires Apply(oldContent, rest) == Some(z)
    ensures Apply(oldContent, [x] + rest) == Some(y + z)
  {
    assert ([x] + rest)[0] == x;
    assert ([x] + rest)[1..] == rest;
  }

  /** An instruction that rebuilds `s[i..next]` followed by a list that
      rebuilds `s[next..]` rebuilds `s[i..]`. */
  lemma {:induction false} ApplyCovers(oldContent: seq<Byte>, x: Instr, rest: seq<Instr>, s: seq<Byte>, i: nat, next: nat)
    requires i <= next <= |s|
    requires Step(oldContent, x) == Some(s[i..next])
    requires Apply(oldContent, rest) == Some(s[next..])
    ensures Apply(oldContent, [x] + rest) == Some(s[i..])
  {
    ApplyCons(oldContent, x, rest, s[i..next], s[next..]);
    assert s[i..next] + s[next..] == s[i..];
  }

  /** Appending one instruction to a list that applies. */
  lemma {:induction false} ApplySnoc(oldContent: seq<Byte>, done: seq<Instr>, out: seq<Byte>, x: Instr)
    requires Apply(oldContent, done) == Some(out)
    ensures Apply(oldContent, done + [x]) ==
      match Step(oldContent, x)
      case None => None
      case Some(y) => Some(out + y)
  {
    ApplyConcat(oldContent, done, [x]);
    assert [x][1..] == [];
    match Step(oldContent, x)
    case None =>
    case Some(y) => assert y + [] == y;
  }

  /** Appending an instruction that succeeds with `y` appends `y` to the output. */
  lemma {:induction false} ApplyExtend(oldContent: seq<Byte>, done: seq<Instr>, out: seq<Byte>, x: Instr, y: seq<Byte>)
    requires Apply(oldContent, done) == Some(out)
    requires Step(oldContent, x) == Some(y)
    ensures Apply(oldContent, done + [x]) == Some(out + y)
  {
    ApplySnoc(oldContent, done, out, x);
  }

  /** What `revise` produces from the old content and a revision: None when it
      returns false. */
  function Decode(oldContent: seq<Byte>, revision: seq<Byte>): (r: Option<seq<Byte>>)
    ensures r.Some? <==>
      (Parse(revision).Some? &&
       forall k :: 0 <= k < |Parse(revision).value| ==> Step(oldContent, Parse(revision).value[k]).Some?)
  {
    match Parse(revision)
    case None => None
    case Some(instrs) => Apply(oldContent, instrs)
  }

  /** The whole script is read once the part before `i` has been read into
      `done`. */
  ghost predicate ReadUpTo(revision: seq<Byte>, i: nat, done: seq<Instr>)
    requires i <= |revision|
  {
    Parse(revision) == Prepend(done, ParseFrom(revision, i))
  }

  /** Prepending a list and then one more instruction in front of the rest. */
  lemma {:induction false} PrependSnoc(done: seq<Instr>, x: Instr, o: Option<seq<Instr>>)
    ensures Prepend(done, Prepend([x], o)) == Prepend(done + [x], o)
  {
    match o
    case None =>
    case Some(ys) => assert done + ([x] + ys) == (done + [x]) + ys;
  }

  /** One step of the reader: the instruction at `start` ends at `next`. */
  lemma {:induction false} ReadStep(revision: seq<Byte>, start: nat, next: nat, done: seq<Instr>, x: Instr)
    requires start < |revision| && ReadUpTo(revision, start, done)
    requires ParseInstrAt(revision, start) == Some((x, next))
    ensures next <= |revision| && ReadUpTo(revision, next, done + [x])
  {
    ParseFromStep(revision, start, x, next);
    PrependSnoc(done, x, ParseFrom(revision, next));
  }

  /** A malformed instruction at `start` makes the whole script unreadable. */
  lemma {:induction false} ReadFails(revision: seq<Byte>, start: nat, done: seq<Instr>)
    requires start < |revision| && ReadUpTo(revision, start, done)
    requires ParseInstrAt(revision, start).None?
    ensures Parse(revision).None?
  {
    assert ParseFrom(revision, start).None?;
  }

  /** An instruction at `start` that cannot be applied, such as a copy out
      of range, makes the whole decode fail, whatever follows it. */
  lemma {:induction false} StepFails(oldContent: seq<Byte>, revision: seq<Byte>, start: nat, next: nat,
                                     done: seq<Instr>, out: seq<Byte>, x: Instr)
    requires start < |revision| && ReadUpTo(revision, start, done)
    requires Apply(oldContent, done) == Some(out)
    requires ParseInstrAt(revision, start) == Some((x, next))
    requires Step(oldContent, x).None?
    ensures Decode(oldContent, revision).None?
  {
    ReadStep(revision, start, next, done, x);
    ApplySnoc(oldContent, done, out, x);
    match ParseFrom(revision, next)
    case None =>
    case Some(ys) => ApplyConcat(oldContent, done + [x], ys);
  }

  /** The empty revision revises to the empty content: the loop of
      revision.cpp:126 never runs. */
  lemma EmptyRevision(oldContent: seq<Byte>)
    ensures Decode(oldContent, []) == Some([])
  {
  }

  /** A byte other than '#' or '+' where an instruction starts makes the
      revision fail, whatever was read before it. */
  lemma {:induction false} UnknownTagFails(oldContent: seq<Byte>, revision: seq<Byte>, start: nat, done: seq<Instr>)
    requires start < |revision| && ReadUpTo(revision, start, done)
    requires revision[start] != HASH && revision[start] != PLUS
    ensures Decode(oldContent, revision) == None
  {
    ReadFails(revision, start, done);
  }

  /** A copy whose offset digits are not followed by a comma makes the
      revision fail, also when the digits run to the end of the revision. */
  lemma {:induction false} MissingCommaFails(oldContent: seq<Byte>, revision: seq<Byte>, start: nat, done: seq<Instr>)
    requires start < |revision| && ReadUpTo(revision, start, done)
    requires revision[start] == HASH
    requires DigitsEnd(revision, start + 1) == |revision| || revision[DigitsEnd(revision, start + 1)] != COMMA
    ensures Decode(oldContent, revision) == None
  {
    ReadFails(revision, start, done);
  }

  /** A '+' that is the last byte of the revision has no delimiter, and the
      revision fails. */
  lemma {:induction false} TrailingPlusFails(oldContent: seq<Byte>, revision: seq<Byte>, start: nat, done: seq<Instr>)
    requires start + 1 == |revision| && ReadUpTo(revision, start, done)
    requires revision[start] == PLUS
    ensures Decode(oldContent, revision) == None
  {
    ReadFails(revision, start, done);
  }

  /** A literal whose delimiter does not occur again after it is never
      closed, and the revision fails. */
  lemma {:induction false} UnclosedLiteralFails(oldContent: seq<Byte>, revision: seq<Byte>, start: nat, done: seq<Instr>)
    requires start + 1 < |revision| && ReadUpTo(revision, start, done)
    requires revision[start] == PLUS && revision[start + 1] !in revision[start + 2..]
    ensures Decode(oldContent, revision) == None
  {
    ReadFails(revision, start, done);
  }

  /** Worked revisions: `#,5` reads both empty numbers as 0 and copies the
      first five bytes; `#5,1000` against ten bytes is out of range; `+`,
      `#5` and `X` are malformed. */
  lemma ReadExamples(oldContent: seq<Byte>)
    requires |oldContent| == 10
    ensures Parse([HASH, COMMA, ZERO + 5]) == Some([Copy(0, 5)])
    ensures Decode(oldContent, [HASH, COMMA, ZERO + 5]) == Some(oldContent[..5])
    ensures Decode(oldContent, [HASH, ZERO + 5, COMMA, ZERO + 1, ZERO, ZERO, ZERO]) == None
    ensures Decode(oldContent, [PLUS]) == None
    ensures Decode(oldContent, [HASH, ZERO + 5]) == None
    ensures Decode(oldContent, [88]) == None
  {
    var copy := [HASH, COMMA, ZERO + 5];
    assert DigitsEnd(copy, 1) == 1;
    assert DigitsEnd(copy, 2) == 3;
    assert DigitsValue(copy, 2, 3) == 5;
    assert ParseInstrAt(copy, 0) == Some((Copy(0, 5), 3));
    ParseFromStep(copy, 0, Copy(0, 5), 3);
    assert ParseFrom(copy, 3) == Some([]);
    assert [Copy(0, 5)] + [] == [Copy(0, 5)];
    assert Step(oldContent, Copy(0, 5)) == Some(oldContent[..5]);
    assert [Copy(0, 5)][1..] == [];
    assert oldContent[..5] + [] == oldContent[..5];
    assert Apply(oldContent, [Copy(0, 5)]) == Some(oldContent[..5]);

    var far := [HASH, ZERO + 5, COMMA, ZERO + 1, ZERO, ZERO, ZERO];
    assert DigitsEnd(far, 1) == 2;
    assert DigitsValue(far, 1, 2) == 5;
    assert DigitsEnd(far, 3) == 7;
    assert DigitsValue(far, 3, 7) == 1000;
    assert ParseInstrAt(far, 0) == Some((Copy(5, 1000), 7));
    PrependNone(Parse(far));
    StepFails(oldContent, far, 0, 7, [], [], Copy(5, 1000));

    PrependNone(Parse([PLUS]));
    TrailingPlusFails(oldContent, [PLUS], 0, []);
    var short := [HASH, ZERO + 5];
    assert DigitsEnd(short, 1) == 2;
    PrependNone(Parse(short));
    MissingCommaFails(oldContent, short, 0, []);
    PrependNone(Parse([88]));
    UnknownTagFails(oldContent, [88], 0, []);
  }

  /** The digit loops of revision.cpp:131-133 and revision.cpp:137-139: reads
      the run of digits at `i` and returns its value and the index after it. */
  method ReadNumber(revision: seq<Byte>, i: nat) returns (value: nat, next: nat)
    requires i <= |revision|
    ensures next == DigitsEnd(revision, i)
    ensures value == DigitsValue(revision, i, next)
  {
    value, next := 0, i;
    while next < |revision| && IsDigit(revision[next])
      invariant i <= next <= |revision| && DigitsIn(revision, i, next)
      invariant value == DigitsValue(revision, i, next)
    {
      value := value * 10 + (revision[next] - ZERO);
      next := next + 1;
    }
    DigitsEndIs(revision, i, next);
  }

  /** The '#' branch of revision.cpp:128-141 up to the range check: reads the
      copy instruction that starts at `start`, or reports it malformed. */
  method ReadCopy(revision: seq<Byte>, start: nat) returns (ok: bool, pos: nat, len: nat, next: nat)
    requires start < |revision| && revision[start] == HASH
    ensures ok ==> ParseInstrAt(revision, start) == Some((Copy(pos, len), next))
    ensures !ok ==> ParseInstrAt(revision, start).None?
  {
    var comma;
    pos, comma := ReadNumber(revision, start + 1);
    if comma >= |revision| || revision[comma] != COMMA {
      return false, 0, 0, 0;
    }
    len, next := ReadNumber(revision, comma + 1);
    CopyFieldsParse(revision, start, comma, next, pos, len);
    ok := true;
  }

  /** The '+' branch of revision.cpp:142-152: reads the literal that starts at
      `start` up to its closing delimiter, or reports it malformed. */
  method ReadLiteral(revision: seq<Byte>, start: nat) returns (ok: bool, data: seq<Byte>, next: nat)
    requires start < |revision| && revision[start] == PLUS
    ensures ok ==> ParseInstrAt(revision, start) == Some((Add(data), next))
    ensures !ok ==> ParseInstrAt(revision, start).None?
  {
    if start + 1 >= |revision| {
      return false, [], 0;
    }
    var delimiter := revision[start + 1];
    var i := start + 2;
    while i < |revision| && revision[i] != delimiter
      invariant start + 2 <= i <= |revision|
      invariant forall k :: start + 2 <= k < i ==> revision[k] != delimiter
    {
      i := i + 1;
    }
    FindIs(revision, delimiter, start + 2, i);
    LiteralFieldsParse(revision, start, i);
    if i >= |revision| {
      return false, [], 0;
    }
    ok, data, next := true, revision[start + 2..i], i + 1;
  }

  /** One pass of the loop body of revision.cpp:127-156: reads the
      instruction at `i` and returns the bytes it contributes and the index
      after it, or reports that `revise` returns false there. */
  method ReviseStep(oldContent: seq<Byte>, revision: seq<Byte>, i: nat)
    returns (ok: bool, piece: seq<Byte>, next: nat, x: Instr)
    requires i < |revision|
    ensures ok ==> ParseInstrAt(revision, i) == Some((x, next)) && Step(oldContent, x) == Some(piece)
    ensures !ok ==> ParseInstrAt(revision, i).None?
                    || (ParseInstrAt(revision, i) == Some((x, next)) && Step(oldContent, x).None?)
  {
    piece, x := [], Add([]);
    if revision[i] == HASH {
      var read, pos, len;
      read, pos, len, next := ReadCopy(revision, i);
      if !read {
        return false, [], 0, x;
      }
      x := Copy(pos, len);
      if pos + len > |oldContent| {
        return false, [], next, x;
      }
      ok, piece := true, oldContent[pos..pos + len];
    } else if revision[i] == PLUS {
      var read, data;
      read, data, next := ReadLiteral(revision, i);
      if !read {
        return false, [], 0, x;
      }
      ok, piece, x := true, data, Add(data);
    } else {
      ok, next := false, 0;
    }
  }

  /** The decoder of revision.cpp:117-161. `written` is what reaches the output
      stream: the new content on success, nothing on failure. */
  method Revise(oldContent: seq<Byte>, revision: seq<Byte>) returns (ok: bool, written: seq<Byte>)
    ensures ok <==> Decode(oldContent, revision).Some?
    ensures written == if ok then Decode(oldContent, revision).value else []
  {
    var newContent: seq<Byte> := [];
    ghost var done: seq<Instr> := [];
    var i: nat := 0;
    PrependNone(Parse(revision));
    while i < |revision|
      invariant i <= |revision|
      invariant ReadUpTo(revision, i, done)
      invariant Apply(oldContent, done) == Some(newContent)
      decreases |revision| - i
    {
      var read, piece, next, x := ReviseStep(oldContent, revision, i);
      if !read {
        if ParseInstrAt(revision, i).None? {
          ReadFails(revision, i, done);
        } else {
          StepFails(oldContent, revision, i, next, done, newContent, x);
        }
        return false, [];
      }
      ReadStep(revision, i, next, done, x);
      ApplyExtend(oldContent, done, newContent, x, piece);
      newContent := newContent + piece;
      done := done + [x];
      i := next;
    }
    ReadAll(revision, done);
    return true, newContent;
  }

  /** Once the reader reaches the end, the script reads as what was read. */
  lemma {:induction false} ReadAll(revision: seq<Byte>, done: seq<Instr>)
    requires ReadUpTo(revision, |revision|, done)
    ensures Parse(revision) == Some(done)
  {
    assert ParseFrom(revision, |revision|) == Some([]);
    assert done + [] == done;
  }
}
