/** What `createRevision` (revision.cpp:54-115) produces on some shapes of
    input, and three places where the code as written departs from what it
    evidently means to do: the build bound of revision.cpp:64 for an old
    content shorter than a chunk, a hash collision that stalls the main loop,
    and a literal that holds both delimiters. */
module EncoderFacts {
  import opened Bytes
  import opened Hashing
  import opened ChunkIndex
  import opened Instructions
  import opened Decoder
  import opened Encoder

  /** Content compared with itself: a single copy of the whole of it, since
      the chunk at offset 0 is indexed, matches to the end, and the search
      keeps the first of the longest matches. */
  lemma {:induction false} SelfEncode(content: seq<Byte>)
    requires |content| >= CHUNK_SIZE
    ensures Encode(content, content) == [Copy(0, |content|)]
  {
    var cands := CandidateTable(content, content);
    var cs := cands[0];
    var h := HashRange(content, 0, CHUNK_SIZE);
    assert cs == Offsets(content, ChunkCount(|content|), h);
    OffsetsComplete(content, ChunkCount(|content|), h, 0);
    var k :| 0 <= k < |cs| && cs[k] == 0;
    OffsetsAscending(content, ChunkCount(|content|), h);
    LongestIsLeftmost(content, content, 0, cs);
    MatchSelf(content, 0);
    var m := Longest(content, content, 0, cs);
    assert m.len == |content|;
    assert m.pos == 0;
    var steps := StepTable(content, content, cands);
    assert steps[0] == Copy(0, |content|);
    WalkUnfold(steps, 0);
  }

  /** An old content shorter than a chunk indexes nothing, so no offset of
      the new content finds candidates. */
  lemma {:induction false} ShortOldNoCandidates(oldContent: seq<Byte>, newContent: seq<Byte>, i: nat)
    requires |oldContent| < CHUNK_SIZE && i < |newContent|
    ensures CandidateTable(oldContent, newContent)[i] == []
  {
    assert ChunkCount(|oldContent|) == 0;
  }

  /** Where no offset of the new content finds candidates, the revision is
      one literal holding the whole new content, and the loop as written
      never stalls. */
  lemma {:induction false} NoCandidatesAllLiteral(oldContent: seq<Byte>, newContent: seq<Byte>)
    requires |newContent| > 0
    requires forall k :: 0 <= k < |newContent| ==> CandidateTable(oldContent, newContent)[k] == []
    ensures Encode(oldContent, newContent) == [Add(newContent)]
    ensures NoStall(oldContent, newContent)
  {
    var cands := CandidateTable(oldContent, newContent);
    LiteralEndIs(cands, 1, |newContent|);
    var steps := StepTable(oldContent, newContent, cands);
    assert steps[0] == Add(newContent[0..|newContent|]);
    assert newContent[0..|newContent|] == newContent;
    WalkUnfold(steps, 0);
  }

  /** Against an old content shorter than a chunk, the revision is one
      literal holding the whole new content. */
  lemma {:induction false} ShortOldAllLiteral(oldContent: seq<Byte>, newContent: seq<Byte>)
    requires |oldContent| < CHUNK_SIZE && |newContent| > 0
    ensures Encode(oldContent, newContent) == [Add(newContent)]
  {
    forall k | 0 <= k < |newContent|
      ensures CandidateTable(oldContent, newContent)[k] == []
    {
      ShortOldNoCandidates(oldContent, newContent, k);
    }
    NoCandidatesAllLiteral(oldContent, newContent);
  }

  // Finding: the build bound of revision.cpp:64.

  /** The last offset the build loop of revision.cpp:64 visits as written:
      `oldSize - CHUNK_SIZE` computed in a 64-bit `size_t`. */
  function BuildBound(oldSize: nat): (b: nat)
    requires oldSize < WORD
    ensures oldSize >= CHUNK_SIZE ==> b == oldSize - CHUNK_SIZE
    ensures oldSize < CHUNK_SIZE ==> b == WORD - (CHUNK_SIZE - oldSize)
  {
    (oldSize - CHUNK_SIZE) % WORD
  }

  /** As written, an old content shorter than a chunk makes the bound wrap
      around: the loop goes on past offset `oldSize`, where `substr` is asked
      for a position beyond the end of the content. */
  lemma {:induction false} ShortOldOverrun(oldSize: nat)
    requires oldSize < CHUNK_SIZE
    ensures oldSize < BuildBound(oldSize)
  {
  }

  /** From a full chunk on, the offsets 0 .. BuildBound(oldSize) the loop
      visits are exactly the ChunkCount(oldSize) offsets BuildIndex indexes. */
  lemma {:induction false} BuildBoundAgrees(oldSize: nat)
    requires oldSize < WORD
    ensures oldSize >= CHUNK_SIZE ==> BuildBound(oldSize) + 1 == ChunkCount(oldSize)
    ensures oldSize < CHUNK_SIZE ==> ChunkCount(oldSize) == 0
  {
  }

  // Finding: a hash collision stalls the main loop of revision.cpp:72-114.

  /** Two 8-byte chunks that differ in their first two bytes but share
      their djb2 hash: 33 * 'A' + 'd' == 33 * 'B' + 'C'. */
  const CollidingOld: seq<Byte> := [65, 100, 65, 65, 65, 65, 65, 65]
  const CollidingNew: seq<Byte> := [66, 67, 65, 65, 65, 65, 65, 65]

  /** Contents that hash alike up to `c` and agree from `c` to `b` hash
      alike up to `b`. */
  lemma {:induction false} HashRangeAgrees(s: seq<Byte>, t: seq<Byte>, c: nat, b: nat)
    requires c <= b <= |s| && b <= |t|
    requires HashRange(s, 0, c) == HashRange(t, 0, c)
    requires forall k :: c <= k < b ==> s[k] == t[k]
    ensures HashRange(s, 0, b) == HashRange(t, 0, b)
    decreases b - c
  {
    if c < b {
      HashRangeAgrees(s, t, c + 1, b);
    }
  }

  /** The two colliding chunks hash alike. */
  lemma {:induction false} CollidingHashes()
    ensures HashRange(CollidingOld, 0, CHUNK_SIZE) == HashRange(CollidingNew, 0, CHUNK_SIZE)
    ensures Hash(CollidingOld) == Hash(CollidingNew)
  {
    var o, n := CollidingOld, CollidingNew;
    assert HashRange(o, 0, 1) == 177638 && HashRange(n, 0, 1) == 177639;
    assert HashRange(o, 0, 2) == 5862154 == HashRange(n, 0, 2);
    HashRangeAgrees(o, n, 2, CHUNK_SIZE);
    HashWhole(o);
    HashWhole(n);
  }

  /** Folding over the whole content is its hash. */
  lemma {:induction false} HashWhole(s: seq<Byte>)
    ensures HashRange(s, 0, |s|) == Hash(s)
  {
    HashRangeIsHash(s, 0, |s|);
    assert s[0..|s|] == s;
  }

  /** The lookup at offset 0 of the colliding new content finds old offset
      0, and no candidate it finds matches even one byte. */
  lemma {:induction false} CollidingCandidates()
    ensures var cs := CandidateTable(CollidingOld, CollidingNew)[0];
      cs != [] && Longest(CollidingOld, CollidingNew, 0, cs).len == 0
  {
    var o, n := CollidingOld, CollidingNew;
    CollidingHashes();
    var cs := CandidateTable(o, n)[0];
    assert cs == Offsets(o, 1, HashRange(n, 0, CHUNK_SIZE));
    OffsetsComplete(o, 1, HashRange(n, 0, CHUNK_SIZE), 0);
    assert MatchAt(o, n, 0, 0) == 0;
  }

  /** As written, the colliding chunk of the new content finds the old
      offset 0, whose match is empty: the step at offset 0 falls through to
      a literal scan that stops at once, writes `+//`, and leaves the loop
      at offset 0 for ever. */
  lemma {:induction false} CollisionStallsEncoder()
    ensures CollidingOld != CollidingNew && Hash(CollidingOld) == Hash(CollidingNew)
    ensures StepAsWritten(CollidingOld, CollidingNew, CandidateTable(CollidingOld, CollidingNew), 0) == Add([])
    ensures SerializeInstr(Add([])) == [PLUS, SLASH, SLASH]
    ensures !NoStall(CollidingOld, CollidingNew)
  {
    var o, n := CollidingOld, CollidingNew;
    CollidingHashes();
    CollidingCandidates();
    var cands := CandidateTable(o, n);
    assert LiteralEnd(cands, 0) == 0;
    assert n[0..0] == [];
    assert o[0] != n[0];
    assert !Progresses(o, n, cands, 0);
  }

  // Finding: a literal that holds both '/' and ';' (revision.cpp:106-113).

  /** A new content whose one literal holds both delimiters. */
  const Unframable: seq<Byte> := [SLASH, SEMICOLON]

  /** An old content of one chunk of zero bytes. */
  const ZeroChunk: seq<Byte> := [0, 0, 0, 0, 0, 0, 0, 0]

  /** The one chunk of ZeroChunk hashes apart from both chunks of
      Unframable, so the lookups at offsets 0 and 1 find nothing. */
  lemma {:induction false} ZeroChunkMisses()
    ensures forall k :: 0 <= k < |Unframable| ==> CandidateTable(ZeroChunk, Unframable)[k] == []
  {
    var o, n := ZeroChunk, Unframable;
    assert HashRange(o, 0, 1) == 177573 && HashRange(o, 0, 2) == 5859909;
    assert HashRange(o, 0, 3) == 193376997 && HashRange(o, 0, 4) == 6381440901;
    assert HashRange(o, 0, 5) == 210587549733 && HashRange(o, 0, 6) == 6949389141189;
    assert HashRange(o, 0, 7) == 229329841659237 && HashRange(o, 0, 8) == 7567884774754821;
    assert HashRange(n, 0, 1) == 177620 && HashRange(n, 0, 2) == 5861519;
    assert HashRange(n, 1, 2) == 177632;
    var cands := CandidateTable(o, n);
    assert cands[0] == Offsets(o, 1, 5861519);
    assert cands[1] == Offsets(o, 1, 177632);
  }

  /** As written, the literal is framed by ';', which also occurs inside it:
      `revise` reads the literal only up to that ';' and then fails on the
      closing one, so the revision does not give back the new content. The
      old content is a full chunk, so the build loop runs as intended and the
      main loop does not stall. */
  lemma {:induction false} UnframableLiteralBreaks()
    ensures NoStall(ZeroChunk, Unframable)
    ensures Encode(ZeroChunk, Unframable) == [Add(Unframable)]
    ensures Serialize(Encode(ZeroChunk, Unframable)) == [PLUS, SEMICOLON, SLASH, SEMICOLON, SEMICOLON]
    ensures Decode(ZeroChunk, Serialize(Encode(ZeroChunk, Unframable))) == None
  {
    ZeroChunkMisses();
    NoCandidatesAllLiteral(ZeroChunk, Unframable);
    var s := [PLUS, SEMICOLON, SLASH, SEMICOLON, SEMICOLON];
    SerializeCons(Add(Unframable), []);
    assert Serialize([Add(Unframable)]) == s;
    assert s[1] == SEMICOLON && s[2] != SEMICOLON && s[3] == SEMICOLON;
    assert Find(s, SEMICOLON, 2) == 3;
    assert s[2..3] == [SLASH];
    assert ParseInstrAt(s, 0) == Some((Add([SLASH]), 4));
    assert ParseInstrAt(s, 4).None?;
    assert ParseFrom(s, 4).None?;
  }

  /** The literals of `data` one byte each; a single byte is always framable. */
  function Singles(data: seq<Byte>): (xs: seq<Instr>)
    ensures AllFramable(xs)
  {
    seq(|data|, k requires 0 <= k < |data| => Add([data[k]]))
  }

  /** One literal per byte rebuilds the same bytes. */
  lemma {:induction false} SinglesApply(oldContent: seq<Byte>, data: seq<Byte>)
    ensures Apply(oldContent, Singles(data)) == Some(data)
    decreases |data|
  {
    if data != [] {
      assert Singles(data) == [Add([data[0]])] + Singles(data[1..]);
      SinglesApply(oldContent, data[1..]);
      ApplyCons(oldContent, Add([data[0]]), Singles(data[1..]), [data[0]], data[1..]);
      assert [data[0]] + data[1..] == data;
    }
  }

  /** The corrected literal emission: a literal that holds both delimiters
      is written as one literal per byte; every other instruction is kept. */
  function FrameLiterals(instrs: seq<Instr>): seq<Instr> {
    if instrs == [] then []
    else FrameOne(instrs[0]) + FrameLiterals(instrs[1..])
  }

  function FrameOne(x: Instr): seq<Instr> {
    if x.Add? && !Framable(x.data) then Singles(x.data) else [x]
  }

  /** Every literal after FrameLiterals is framable. */
  lemma {:induction false} FrameLiteralsFramable(instrs: seq<Instr>)
    ensures AllFramable(FrameLiterals(instrs))
  {
    if instrs != [] {
      FrameLiteralsFramable(instrs[1..]);
      var a: seq<Instr>, b: seq<Instr> := FrameOne(instrs[0]), FrameLiterals(instrs[1..]);
      assert AllFramable(a);
      forall k | 0 <= k < |a + b| && (a + b)[k].Add?
        ensures Framable((a + b)[k].data)
      {
        if k >= |a| {
          assert (a + b)[k] == b[k - |a|];
        }
      }
    }
  }

  /** FrameLiterals changes how literals are cut, not what they rebuild. */
  lemma {:induction false} FrameLiteralsApply(oldContent: seq<Byte>, instrs: seq<Instr>)
    ensures Apply(oldContent, FrameLiterals(instrs)) == Apply(oldContent, instrs)
  {
    if instrs != [] {
      var x := instrs[0];
      FrameLiteralsApply(oldContent, instrs[1..]);
      ApplyConcat(oldContent, FrameOne(x), FrameLiterals(instrs[1..]));
      ApplyConcat(oldContent, [x], instrs[1..]);
      assert [x] + instrs[1..] == instrs;
      if x.Add? && !Framable(x.data) {
        SinglesApply(oldContent, x.data);
        ApplyCons(oldContent, x, [], x.data, []);
        assert [x] + [] == [x] && x.data + [] == x.data;
      }
    }
  }

  /** With the corrected literal emission the round trip holds for every
      old and new content. */
  lemma {:induction false} FramedRoundTrip(oldContent: seq<Byte>, newContent: seq<Byte>)
    ensures Decode(oldContent, Serialize(FrameLiterals(Encode(oldContent, newContent)))) == Some(newContent)
  {
    var instrs := FrameLiterals(Encode(oldContent, newContent));
    FrameLiteralsFramable(Encode(oldContent, newContent));
    RoundTripFormat(instrs);
    FrameLiteralsApply(oldContent, Encode(oldContent, newContent));
    EncodeApplies(oldContent, newContent);
  }
}
