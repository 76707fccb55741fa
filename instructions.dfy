/** The revision script format written at revision.cpp:94 and revision.cpp:113
    and read at revision.cpp:126-156: `#<pos>,<len>` copies, `+<d><bytes><d>`
    literals. The reader walks an index over the whole script, as `revise`
    does. */
module Instructions {
  import opened Bytes

  /** One instruction of a revision. */
  datatype Instr =
    | Copy(pos: nat, len: nat)     // old content [pos, pos + len)
    | Add(data: seq<Byte>)         // literal bytes

  predicate AllDigits(ds: seq<Byte>) {
    forall k :: 0 <= k < |ds| ==> IsDigit(ds[k])
  }

  /** `n` printed in base 10 as an `ostream` prints an `int`. */
  function Decimal(n: nat): (ds: seq<Byte>)
    ensures |ds| >= 1 && AllDigits(ds)
    ensures n < 10 <==> |ds| == 1
  {
    if n < 10 then [ZERO + n] else Decimal(n / 10) + [ZERO + n % 10]
  }

  /** The bytes of `s` from `i` to `e` are all digits. */
  predicate DigitsIn(s: seq<Byte>, i: nat, e: nat)
    requires i <= e <= |s|
  {
    forall k :: i <= k < e ==> IsDigit(s[k])
  }

  /** The value the decoder accumulates over the digits `s[i..e]`,
      `v * 10 + digit` per byte; an empty run is worth 0. */
  function DigitsValue(s: seq<Byte>, i: nat, e: nat): nat
    requires i <= e <= |s| && DigitsIn(s, i, e)
    decreases e - i
  {
    if e == i then 0 else DigitsValue(s, i, e - 1) * 10 + (s[e - 1] - ZERO)
  }

  /** A run of digits is worth 0 exactly when every digit is '0'. */
  lemma {:induction false} DigitsValueZero(s: seq<Byte>, i: nat, e: nat)
    requires i <= e <= |s| && DigitsIn(s, i, e)
    ensures DigitsValue(s, i, e) == 0 <==> forall k :: i <= k < e ==> s[k] == ZERO
    decreases e - i
  {
    if e > i {
      DigitsValueZero(s, i, e - 1);
    }
  }

  /** The value of a run of digits depends only on the digits. */
  lemma {:induction false} DigitsValueShift(s: seq<Byte>, i: nat, t: seq<Byte>, j: nat, len: nat)
    requires i + len <= |s| && j + len <= |t| && DigitsIn(s, i, i + len)
    requires forall k :: i <= k < i + len ==> s[k] == t[k - i + j]
    ensures DigitsIn(t, j, j + len)
    ensures DigitsValue(s, i, i + len) == DigitsValue(t, j, j + len)
    decreases len
  {
    assert DigitsIn(t, j, j + len) by {
      forall k | j <= k < j + len ensures IsDigit(t[k]) {
        assert s[k - j + i] == t[k];
      }
    }
    if len > 0 {
      DigitsValueShift(s, i, t, j, len - 1);
      assert s[i + len - 1] == t[j + len - 1];
    }
  }

  /** Printing a natural in decimal and reading the digits back gives it again. */
  lemma {:induction false} DecimalRoundTrip(n: nat)
    ensures DigitsValue(Decimal(n), 0, |Decimal(n)|) == n
  {
    if n >= 10 {
      var ds, front := Decimal(n), Decimal(n / 10);
      assert ds == front + [ZERO + n % 10];
      DecimalRoundTrip(n / 10);
      DigitsValueShift(front, 0, ds, 0, |front|);
      assert DigitsValue(ds, 0, |ds|) == DigitsValue(ds, 0, |front|) * 10 + n % 10;
    }
  }

  /** Where the run of digits that starts at `i` ends. */
  function DigitsEnd(s: seq<Byte>, i: nat): (e: nat)
    requires i <= |s|
    ensures i <= e <= |s| && DigitsIn(s, i, e)
    ensures e < |s| ==> !IsDigit(s[e])
    decreases |s| - i
  {
    if i < |s| && IsDigit(s[i]) then DigitsEnd(s, i + 1) else i
  }

  /** A run of digits from `i` to a non-digit (or the end) is the run. */
  lemma DigitsEndIs(s: seq<Byte>, i: nat, e: nat)
    requires i <= e <= |s| && DigitsIn(s, i, e)
    requires e == |s| || !IsDigit(s[e])
    ensures DigitsEnd(s, i) == e
  {
  }

  /** Index of the first `d` in `s` at or after `i`, or |s| when there is none. */
  function Find(s: seq<Byte>, d: Byte, i: nat): (e: nat)
    requires i <= |s|
    ensures i <= e <= |s| && forall k :: i <= k < e ==> s[k] != d
    ensures e < |s| ==> s[e] == d
    decreases |s| - i
  {
    if i == |s| || s[i] == d then i else Find(s, d, i + 1)
  }

  /** Find is the position of the first `d`. */
  lemma FindIs(s: seq<Byte>, d: Byte, i: nat, e: nat)
    requires i <= e <= |s| && forall k :: i <= k < e ==> s[k] != d
    requires e == |s| || s[e] == d
    ensures Find(s, d, i) == e
  {
  }

  /** The literal delimiter the encoder picks for `data`: '/' unless `data`
      holds a '/', then ';'. */
  function Delimiter(data: seq<Byte>): (d: Byte)
    ensures d == SLASH || d == SEMICOLON
    ensures d == SLASH <==> SLASH !in data
  {
    if SLASH in data then SEMICOLON else SLASH
  }

  /** A payload the two-delimiter framing can carry: it lacks '/' or ';'. */
  predicate Framable(data: seq<Byte>) {
    !(SLASH in data && SEMICOLON in data)
  }

  /** For a framable payload the chosen delimiter never occurs inside it. */
  lemma {:induction false} DelimiterNotInFramable(data: seq<Byte>)
    requires Framable(data)
    ensures Delimiter(data) !in data
  {
  }

  /** Every literal of `instrs` is framable. */
  predicate AllFramable(instrs: seq<Instr>) {
    forall k :: 0 <= k < |instrs| && instrs[k].Add? ==> Framable(instrs[k].data)
  }

  /** The bytes of one instruction as revision.cpp:94 and revision.cpp:113
      write them. */
  function SerializeInstr(x: Instr): (s: seq<Byte>)
    ensures |s| >= 2
    ensures s[0] == (if x.Copy? then HASH else PLUS)
  {
    match x
    case Copy(p, l) => [HASH] + Decimal(p) + [COMMA] + Decimal(l)
    case Add(data) => [PLUS, Delimiter(data)] + data + [Delimiter(data)]
  }

  function Serialize(instrs: seq<Instr>): (s: seq<Byte>)
    ensures instrs == [] <==> s == []
  {
    if instrs == [] then [] else SerializeInstr(instrs[0]) + Serialize(instrs[1..])
  }

  lemma {:induction false} SerializeCons(x: Instr, instrs: seq<Instr>)
    ensures Serialize([x] + instrs) == SerializeInstr(x) + Serialize(instrs)
  {
    assert ([x] + instrs)[1..] == instrs;
  }

  /** Writing one more instruction appends its bytes to the script. */
  lemma {:induction false} SerializeSnoc(instrs: seq<Instr>, x: Instr)
    ensures Serialize(instrs + [x]) == Serialize(instrs) + SerializeInstr(x)
  {
    if instrs == [] {
      assert instrs + [x] == [x] + [];
      SerializeCons(x, []);
    } else {
      assert instrs + [x] == [instrs[0]] + (instrs[1..] + [x]);
      SerializeCons(instrs[0], instrs[1..] + [x]);
      SerializeSnoc(instrs[1..], x);
      SerializeCons(instrs[0], instrs[1..]);
    }
  }

  /** Reads the instruction that starts at `i` of the script `s`: the
      instruction and the index just after it, or None when the script is
      malformed there. */
  function ParseInstrAt(s: seq<Byte>, i: nat): (r: Option<(Instr, nat)>)
    requires i < |s|
    ensures r.Some? ==> i < r.value.1 <= |s|
  {
    if s[i] == HASH then
      var j := DigitsEnd(s, i + 1);
      if j == |s| || s[j] != COMMA then None
      else
        var k := DigitsEnd(s, j + 1);
        Some((Copy(DigitsValue(s, i + 1, j), DigitsValue(s, j + 1, k)), k))
    else if s[i] == PLUS then
      if i + 1 == |s| then None
      else
        var e := Find(s, s[i + 1], i + 2);
        if e == |s| then None else Some((Add(s[i + 2..e]), e + 1))
    else None
  }

  /** Reads the script from `i` to its end into its instructions. */
  function ParseFrom(s: seq<Byte>, i: nat): Option<seq<Instr>>
    requires i <= |s|
    decreases |s| - i
  {
    if i == |s| then Some([])
    else
      match ParseInstrAt(s, i)
      case None => None
      case Some((x, next)) => Prepend([x], ParseFrom(s, next))
  }

  /** Reads a whole script into its instructions. */
  function Parse(s: seq<Byte>): (r: Option<seq<Instr>>)
    ensures s == [] ==> r == Some([])
    ensures r.Some? ==> |r.value| <= |s|
  {
    ParseFromLength(s, 0);
    ParseFrom(s, 0)
  }

  /** Every instruction read takes at least one byte of the script. */
  lemma {:induction false} ParseFromLength(s: seq<Byte>, i: nat)
    requires i <= |s|
    ensures ParseFrom(s, i).Some? ==> |ParseFrom(s, i).value| <= |s| - i
    decreases |s| - i
  {
    if i < |s| {
      match ParseInstrAt(s, i)
      case None =>
      case Some((x, next)) => ParseFromLength(s, next);
    }
  }

  function Prepend(xs: seq<Instr>, o: Option<seq<Instr>>): Option<seq<Instr>> {
    match o
    case None => None
    case Some(ys) => Some(xs + ys)
  }

  /** `piece` sits in `s` at `i`. */
  predicate Occurs(s: seq<Byte>, i: nat, piece: seq<Byte>) {
    i + |piece| <= |s| && forall k :: 0 <= k < |piece| ==> s[i + k] == piece[k]
  }

  /** No digit sits in `s` at `i`. */
  predicate NoDigitAt(s: seq<Byte>, i: nat) {
    i >= |s| || !IsDigit(s[i])
  }

  /** A piece made of two parts sits where both parts sit one after the other. */
  lemma {:induction false} OccursConcat(s: seq<Byte>, i: nat, a: seq<Byte>, b: seq<Byte>)
    requires Occurs(s, i, a + b)
    ensures Occurs(s, i, a) && Occurs(s, i + |a|, b)
  {
    forall k | 0 <= k < |a| ensures s[i + k] == a[k] {
      assert (a + b)[k] == a[k];
    }
    forall k | 0 <= k < |b| ensures s[i + |a| + k] == b[k] {
      assert (a + b)[|a| + k] == b[k];
    }
  }

  /** A run of digits placed at `a` and followed by no digit is read
      whole, with the value of the run. */
  lemma {:induction false} DigitRunAt(s: seq<Byte>, a: nat, ds: seq<Byte>)
    requires AllDigits(ds) && Occurs(s, a, ds) && NoDigitAt(s, a + |ds|)
    ensures DigitsEnd(s, a) == a + |ds|
    ensures DigitsValue(s, a, a + |ds|) == DigitsValue(ds, 0, |ds|)
  {
    forall k | 0 <= k < 0 + |ds| ensures ds[k] == s[k - 0 + a] {
      assert s[a + k] == ds[k];
    }
    DigitsValueShift(ds, 0, s, a, |ds|);
    DigitsEndIs(s, a, a + |ds|);
  }

  /** Where the parts of `#<dp>,<dl>` sit. */
  lemma {:induction false} CopyLayout(s: seq<Byte>, i: nat, dp: seq<Byte>, dl: seq<Byte>)
    requires Occurs(s, i, [HASH] + dp + [COMMA] + dl)
    ensures i + 2 + |dp| + |dl| <= |s|
    ensures s[i] == HASH && s[i + 1 + |dp|] == COMMA
    ensures Occurs(s, i + 1, dp) && Occurs(s, i + 2 + |dp|, dl)
  {
    OccursConcat(s, i, [HASH] + dp + [COMMA], dl);
    OccursConcat(s, i, [HASH] + dp, [COMMA]);
    OccursConcat(s, i, [HASH], dp);
    assert s[i + 0] == [HASH][0];
    assert s[i + |[HASH] + dp| + 0] == [COMMA][0];
  }

  /** A '#' followed by two digit runs around a comma reads as that copy. */
  lemma {:induction false} CopyFieldsParse(s: seq<Byte>, i: nat, j: nat, k: nat, p: nat, l: nat)
    requires i < j < |s| && s[i] == HASH && s[j] == COMMA
    requires DigitsEnd(s, i + 1) == j && DigitsValue(s, i + 1, j) == p
    requires j < k <= |s| && DigitsEnd(s, j + 1) == k && DigitsValue(s, j + 1, k) == l
    ensures ParseInstrAt(s, i) == Some((Copy(p, l), k))
  {
  }

  /** A serialised copy reads back as itself when no digit follows it. */
  lemma {:induction false} ParseCopyAt(s: seq<Byte>, i: nat, p: nat, l: nat)
    requires Occurs(s, i, SerializeInstr(Copy(p, l)))
    requires NoDigitAt(s, i + |SerializeInstr(Copy(p, l))|)
    ensures ParseInstrAt(s, i) == Some((Copy(p, l), i + |SerializeInstr(Copy(p, l))|))
  {
    var dp, dl := Decimal(p), Decimal(l);
    var j := i + 1 + |dp|;
    var k := j + 1 + |dl|;
    CopyLayout(s, i, dp, dl);
    DigitRunAt(s, i + 1, dp);
    DecimalRoundTrip(p);
    DigitRunAt(s, j + 1, dl);
    DecimalRoundTrip(l);
    CopyFieldsParse(s, i, j, k, p, l);
  }

  /** A '+' and a delimiter read as the literal up to the next occurrence
      of the delimiter, and as nothing when it does not occur again. */
  lemma {:induction false} LiteralFieldsParse(s: seq<Byte>, i: nat, e: nat)
    requires i + 1 < |s| && s[i] == PLUS && Find(s, s[i + 1], i + 2) == e
    ensures e == |s| ==> ParseInstrAt(s, i).None?
    ensures e < |s| ==> ParseInstrAt(s, i) == Some((Add(s[i + 2..e]), e + 1))
  {
  }

  /** A serialised framable literal reads back as itself. */
  lemma {:induction false} ParseAddAt(s: seq<Byte>, i: nat, data: seq<Byte>)
    requires Framable(data)
    requires Occurs(s, i, SerializeInstr(Add(data)))
    ensures ParseInstrAt(s, i) == Some((Add(data), i + |SerializeInstr(Add(data))|))
  {
    var d := Delimiter(data);
    var e := i + 2 + |data|;
    OccursConcat(s, i, [PLUS, d] + data, [d]);
    OccursConcat(s, i, [PLUS, d], data);
    assert s[i] == PLUS && s[i + 1] == d && s[e] == d by {
      assert s[i + 0] == [PLUS, d][0];
      assert s[i + 1] == [PLUS, d][1];
      assert s[i + |[PLUS, d] + data| + 0] == [d][0];
    }
    DelimiterNotInFramable(data);
    forall q | i + 2 <= q < e ensures s[q] == data[q - (i + 2)] {
      assert s[(i + 2) + (q - (i + 2))] == data[q - (i + 2)];
    }
    FindIs(s, d, i + 2, e);
    assert s[i + 2..e] == data;
  }

  /** Reading a serialised list of instructions at `i`, when no digit follows
      it, yields the list followed by whatever comes after it. */
  lemma {:induction false} ParseSerializeAt(s: seq<Byte>, i: nat, instrs: seq<Instr>, end: nat)
    requires AllFramable(instrs)
    requires Occurs(s, i, Serialize(instrs)) && end == i + |Serialize(instrs)|
    requires NoDigitAt(s, end)
    ensures ParseFrom(s, i) == Prepend(instrs, ParseFrom(s, end))
    decreases |instrs|
  {
    if instrs == [] {
      PrependNone(ParseFrom(s, i));
    } else {
      var next := i + |SerializeInstr(instrs[0])|;
      HeadParses(s, i, instrs, next);
      TailSits(s, i, instrs, next);
      ParseSerializeAt(s, next, instrs[1..], end);
      PrependChain(ParseFrom(s, i), ParseFrom(s, next), ParseFrom(s, end), instrs);
    }
  }

  /** The rest of a serialised list sits where its first instruction ends,
      and its literals are framable. */
  lemma {:induction false} TailSits(s: seq<Byte>, i: nat, instrs: seq<Instr>, next: nat)
    requires instrs != [] && AllFramable(instrs)
    requires Occurs(s, i, Serialize(instrs))
    requires next == i + |SerializeInstr(instrs[0])|
    ensures AllFramable(instrs[1..]) && Occurs(s, next, Serialize(instrs[1..]))
    ensures i + |Serialize(instrs)| == next + |Serialize(instrs[1..])|
  {
    OccursSerializeCons(s, i, instrs);
    FramableTail(instrs);
  }

  /** The first instruction of a serialised list reads back as itself. */
  lemma {:induction false} HeadParses(s: seq<Byte>, i: nat, instrs: seq<Instr>, next: nat)
    requires instrs != [] && AllFramable(instrs)
    requires Occurs(s, i, Serialize(instrs))
    requires NoDigitAt(s, i + |Serialize(instrs)|)
    requires next == i + |SerializeInstr(instrs[0])|
    ensures ParseFrom(s, i) == Prepend([instrs[0]], ParseFrom(s, next))
  {
    OccursSerializeCons(s, i, instrs);
    NoDigitAtStart(s, next, instrs[1..]);
    FramableTail(instrs);
    InstrParses(s, i, instrs[0], next);
    ParseFromStep(s, i, instrs[0], next);
  }

  /** A serialised instruction followed by no digit reads back as itself. */
  lemma {:induction false} InstrParses(s: seq<Byte>, i: nat, x: Instr, next: nat)
    requires Occurs(s, i, SerializeInstr(x)) && next == i + |SerializeInstr(x)| && NoDigitAt(s, next)
    requires x.Add? ==> Framable(x.data)
    ensures i < |s| && ParseInstrAt(s, i) == Some((x, next))
  {
    if x.Copy? {
      ParseCopyAt(s, i, x.pos, x.len);
    } else {
      ParseAddAt(s, i, x.data);
    }
  }

  /** A serialised list sits where its first instruction sits followed by the
      rest of the list. */
  lemma {:induction false} OccursSerializeCons(s: seq<Byte>, i: nat, instrs: seq<Instr>)
    requires instrs != [] && Occurs(s, i, Serialize(instrs))
    ensures Occurs(s, i, SerializeInstr(instrs[0]))
    ensures Occurs(s, i + |SerializeInstr(instrs[0])|, Serialize(instrs[1..]))
    ensures |Serialize(instrs)| == |SerializeInstr(instrs[0])| + |Serialize(instrs[1..])|
  {
    SerializeSplit(instrs);
    OccursSplit(s, i, Serialize(instrs), SerializeInstr(instrs[0]), Serialize(instrs[1..]));
  }

  lemma {:induction false} SerializeSplit(instrs: seq<Instr>)
    requires instrs != []
    ensures Serialize(instrs) == SerializeInstr(instrs[0]) + Serialize(instrs[1..])
  {
  }

  lemma {:induction false} OccursSplit(s: seq<Byte>, i: nat, whole: seq<Byte>, a: seq<Byte>, b: seq<Byte>)
    requires whole == a + b && Occurs(s, i, whole)
    ensures Occurs(s, i, a) && Occurs(s, i + |a|, b) && |whole| == |a| + |b|
  {
    OccursConcat(s, i, a, b);
  }

  /** The literals of a list are framable when those of the whole list are. */
  lemma {:induction false} FramableTail(instrs: seq<Instr>)
    requires instrs != [] && AllFramable(instrs)
    ensures AllFramable(instrs[1..])
    ensures instrs[0].Add? ==> Framable(instrs[0].data)
  {
    var tail := instrs[1..];
    forall k | 0 <= k < |tail| && tail[k].Add? ensures Framable(tail[k].data) {
      assert tail[k] == instrs[k + 1];
    }
  }

  /** A serialised list followed by no digit does not start with a digit. */
  lemma {:induction false} NoDigitAtStart(s: seq<Byte>, j: nat, instrs: seq<Instr>)
    requires Occurs(s, j, Serialize(instrs)) && NoDigitAt(s, j + |Serialize(instrs)|)
    ensures NoDigitAt(s, j)
  {
    if instrs != [] {
      assert s[j + 0] == Serialize(instrs)[0] == SerializeInstr(instrs[0])[0];
    }
  }

  /** Prepending nothing changes nothing. */
  lemma {:induction false} PrependNone(o: Option<seq<Instr>>)
    ensures Prepend([], o) == o
  {
    match o
    case None =>
    case Some(ys) => assert [] + ys == ys;
  }

  /** Prepending the first instruction of a list after the rest of it is
      prepending the whole list. */
  lemma {:induction false} PrependChain(o0: Option<seq<Instr>>, o1: Option<seq<Instr>>, o2: Option<seq<Instr>>,
                                        instrs: seq<Instr>)
    requires instrs != []
    requires o0 == Prepend([instrs[0]], o1) && o1 == Prepend(instrs[1..], o2)
    ensures o0 == Prepend(instrs, o2)
  {
    match o2
    case None =>
    case Some(ys) => assert [instrs[0]] + (instrs[1..] + ys) == instrs + ys;
  }

  /** Reading from `i` is reading the instruction there and then the rest. */
  lemma {:induction false} ParseFromStep(s: seq<Byte>, i: nat, x: Instr, next: nat)
    requires i < |s| && ParseInstrAt(s, i) == Some((x, next))
    ensures ParseFrom(s, i) == Prepend([x], ParseFrom(s, next))
  {
  }

  /** The format round trip: a script of framable literals parses back to the
      instructions it was written from. */
  lemma {:induction false} RoundTripFormat(instrs: seq<Instr>)
    requires AllFramable(instrs)
    ensures Parse(Serialize(instrs)) == Some(instrs)
  {
    var s := Serialize(instrs);
    ParseSerializeAt(s, 0, instrs, |s|);
    assert instrs + [] == instrs;
  }
}
