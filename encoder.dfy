/** The encoder `createRevision` (revision.cpp:54-115): indexes every 8-byte
    chunk of the old content, then walks the new content emitting a copy of
    the longest match found through the index, or else a literal that runs up
    to the next offset whose chunk the index knows.

    The walk is stated over a candidate table `cands`: `cands[i]` is what the
    index returns for the chunk of the new content at offset `i`. `Encode`
    uses the table the index actually gives (CandidateTable); the round trip
    holds whatever the table. */
module Encoder {
  import opened Bytes
  import opened Hashing
  import opened ChunkIndex
  import opened Instructions
  import opened Decoder

  /** Where `substr(i, CHUNK_SIZE)` ends: the chunk at `i` is cut short at
      the end of the content. */
  function ChunkEnd(s: seq<Byte>, i: nat): (e: nat)
    requires i <= |s|
    ensures i <= e <= |s|
    ensures e - i == CHUNK_SIZE || e == |s|
    ensures e - i <= CHUNK_SIZE
  {
    if i + CHUNK_SIZE <= |s| then i + CHUNK_SIZE else |s|
  }

  /** The hash of the chunk of the new content at `i`, folded in place
      (`Hash(newContent[i..ChunkEnd(newContent, i)])`, by HashRangeIsHash). */
  function ChunkKey(newContent: seq<Byte>, i: nat): nat
    requires i <= |newContent|
  {
    HashRange(newContent, i, ChunkEnd(newContent, i))
  }

  /** The offsets the index returns for the chunk of the new content at `i`:
      every indexed offset of the old content whose chunk has the same hash,
      in ascending order. */
  function Candidates(oldContent: seq<Byte>, newContent: seq<Byte>, i: nat): (ps: seq<nat>)
    requires i <= |newContent|
    ensures forall k :: 0 <= k < |ps| ==>
      ps[k] + CHUNK_SIZE <= |oldContent| && ChunkHash(oldContent, ps[k]) == ChunkKey(newContent, i)
  {
    Offsets(oldContent, ChunkCount(|oldContent|), ChunkKey(newContent, i))
  }

  /** The index's answers for every offset of the new content. */
  function CandidateTable(oldContent: seq<Byte>, newContent: seq<Byte>): (cands: seq<seq<nat>>)
    ensures |cands| == |newContent|
  {
    seq(|newContent|, i requires 0 <= i < |newContent| => Candidates(oldContent, newContent, i))
  }

  /** The match length the inner loop of revision.cpp:82-85 reaches for
      candidate `p` at offset `i` of the new content: how far the old content
      from `p` and the new content from `i` agree. */
  function MatchAt(oldContent: seq<Byte>, newContent: seq<Byte>, i: nat, p: nat): (l: nat)
    requires i <= |newContent|
    ensures i + l <= |newContent|
    ensures l > 0 ==> p + l <= |oldContent|
    ensures i + l < |newContent| && p + l < |oldContent| ==> oldContent[p + l] != newContent[i + l]
    decreases |newContent| - i
  {
    if i < |newContent| && p < |oldContent| && newContent[i] == oldContent[p] then
      1 + MatchAt(oldContent, newContent, i + 1, p + 1)
    else 0
  }

  /** The bytes a match covers are the same on both sides. */
  lemma {:induction false} MatchAgrees(oldContent: seq<Byte>, newContent: seq<Byte>, i: nat, p: nat)
    requires i <= |newContent|
    ensures var l := MatchAt(oldContent, newContent, i, p);
      l > 0 ==> oldContent[p..p + l] == newContent[i..i + l]
    decreases |newContent| - i
  {
    var l := MatchAt(oldContent, newContent, i, p);
    if l > 0 {
      MatchAgrees(oldContent, newContent, i + 1, p + 1);
      if l > 1 {
        assert oldContent[p..p + l] == [oldContent[p]] + oldContent[p + 1..p + l];
        assert newContent[i..i + l] == [newContent[i]] + newContent[i + 1..i + l];
      }
    }
  }

  /** Content compared with itself at the same offset matches to the end. */
  lemma {:induction false} MatchSelf(s: seq<Byte>, i: nat)
    requires i <= |s|
    ensures MatchAt(s, s, i, i) == |s| - i
    decreases |s| - i
  {
    if i < |s| {
      MatchSelf(s, i + 1);
    }
  }

  /** The result of the search for the longest match: `maxMatchLen` and
      `bestMatchPos`, which stays -1 while no candidate matched at all. */
  datatype Match = Match(pos: int, len: nat)

  /** The search of revision.cpp:79-90 over the candidates `cs` in order: a
      candidate replaces the best so far only when its match is strictly
      longer. */
  function Longest(oldContent: seq<Byte>, newContent: seq<Byte>, i: nat, cs: seq<nat>): (m: Match)
    requires i <= |newContent|
    ensures m.len == 0 ==> m.pos == -1
    ensures m.len > 0 ==> 0 <= m.pos && m.pos as nat in cs && MatchAt(oldContent, newContent, i, m.pos as nat) == m.len
    ensures forall k :: 0 <= k < |cs| ==> MatchAt(oldContent, newContent, i, cs[k]) <= m.len
  {
    if cs == [] then Match(-1, 0)
    else
      var best := Longest(oldContent, newContent, i, cs[..|cs| - 1]);
      var p := cs[|cs| - 1];
      var l := MatchAt(oldContent, newContent, i, p);
      if l > best.len then Match(p, l) else best
  }

  /** The offsets of `cs` are strictly ascending. */
  predicate Ascending(cs: seq<nat>) {
    forall j, k :: 0 <= j < k < |cs| ==> cs[j] < cs[k]
  }

  /** The offset the search keeps is at or before every candidate that
      matches as long. */
  predicate KeepsLeftmost(oldContent: seq<Byte>, newContent: seq<Byte>, i: nat, cs: seq<nat>)
    requires i <= |newContent|
  {
    var m := Longest(oldContent, newContent, i, cs);
    forall k :: 0 <= k < |cs| && MatchAt(oldContent, newContent, i, cs[k]) == m.len && m.len > 0 ==> m.pos <= cs[k]
  }

  /** Among candidates in ascending order, the search keeps the smallest
      offset of those with the longest match. */
  lemma {:induction false} LongestIsLeftmost(oldContent: seq<Byte>, newContent: seq<Byte>, i: nat, cs: seq<nat>)
    requires i <= |newContent| && Ascending(cs)
    ensures KeepsLeftmost(oldContent, newContent, i, cs)
  {
    if cs != [] {
      var front := cs[..|cs| - 1];
      assert Ascending(front);
      LongestIsLeftmost(oldContent, newContent, i, front);
      var m := Longest(oldContent, newContent, i, cs);
      forall k | 0 <= k < |cs| && MatchAt(oldContent, newContent, i, cs[k]) == m.len && m.len > 0
        ensures m.pos <= cs[k]
      {
        LeftmostAt(oldContent, newContent, i, cs, k);
      }
    }
  }

  /** The step of LongestIsLeftmost for one candidate. */
  lemma {:induction false} LeftmostAt(oldContent: seq<Byte>, newContent: seq<Byte>, i: nat, cs: seq<nat>, k: nat)
    requires i <= |newContent| && Ascending(cs) && k < |cs|
    requires KeepsLeftmost(oldContent, newContent, i, cs[..|cs| - 1])
    requires MatchAt(oldContent, newContent, i, cs[k]) == Longest(oldContent, newContent, i, cs).len > 0
    ensures Longest(oldContent, newContent, i, cs).pos <= cs[k]
  {
    var front := cs[..|cs| - 1];
    var best := Longest(oldContent, newContent, i, front);
    var m := Longest(oldContent, newContent, i, cs);
    if m == best {
      if k == |cs| - 1 {
        var j :| 0 <= j < |front| && front[j] == m.pos;
        assert cs[j] < cs[k];
      } else {
        assert front[k] == cs[k];
      }
    }
  }

  /** A copy of the longest match rebuilds the bytes of the new content it
      covers. */
  lemma {:induction false} LongestCopyRebuilds(oldContent: seq<Byte>, newContent: seq<Byte>, i: nat, cs: seq<nat>)
    requires i <= |newContent|
    ensures var m := Longest(oldContent, newContent, i, cs);
      m.len > 0 ==> Step(oldContent, Copy(m.pos as nat, m.len)) == Some(newContent[i..i + m.len])
  {
    var m := Longest(oldContent, newContent, i, cs);
    if m.len > 0 {
      MatchAgrees(oldContent, newContent, i, m.pos as nat);
    }
  }

  /** The first offset at or after `j` whose lookup found candidates, or the
      end of the new content: where the literal scan of revision.cpp:102-104
      stops. */
  function LiteralEnd(cands: seq<seq<nat>>, j: nat): (e: nat)
    requires j <= |cands|
    ensures j <= e <= |cands|
    ensures forall k :: j <= k < e ==> cands[k] == []
    ensures e < |cands| ==> cands[e] != []
    decreases |cands| - j
  {
    if j == |cands| || cands[j] != [] then j else LiteralEnd(cands, j + 1)
  }

  /** The scan ends at the first offset with candidates, whichever way it is
      found. */
  lemma {:induction false} LiteralEndIs(cands: seq<seq<nat>>, j: nat, e: nat)
    requires j <= e <= |cands|
    requires forall k :: j <= k < e ==> cands[k] == []
    requires e == |cands| || cands[e] != []
    ensures LiteralEnd(cands, j) == e
    decreases e - j
  {
    if j < e {
      LiteralEndIs(cands, j + 1, e);
    }
  }

  /** How many bytes of the new content an instruction stands for. */
  function Width(x: Instr): nat {
    match x
    case Copy(_, len) => len
    case Add(data) => |data|
  }

  /** One pass of the outer loop of revision.cpp:72-114 exactly as written:
      the instruction it emits at `i`; the loop then moves on by its width. */
  function StepAsWritten(oldContent: seq<Byte>, newContent: seq<Byte>, cands: seq<seq<nat>>, i: nat): (x: Instr)
    requires i < |newContent| == |cands|
    ensures i + Width(x) <= |newContent|
    ensures Step(oldContent, x) == Some(newContent[i..i + Width(x)])
  {
    var m := Longest(oldContent, newContent, i, cands[i]);
    if cands[i] != [] && m.len > 0 then
      LongestCopyRebuilds(oldContent, newContent, i, cands[i]);
      Copy(m.pos as nat, m.len)
    else
      Add(newContent[i..LiteralEnd(cands, i)])
  }

  /** One pass of the outer loop with the literal scan starting one byte
      further on, so that a literal always takes at least the byte at `i`.
      The instruction emitted at `i` covers at least one byte and rebuilds
      exactly the bytes it covers; EncodeStepChoice says which one it is. */
  function EncodeStep(oldContent: seq<Byte>, newContent: seq<Byte>, cands: seq<seq<nat>>, i: nat): (x: Instr)
    requires i < |newContent| == |cands|
    ensures 0 < Width(x) && i + Width(x) <= |newContent|
    ensures Step(oldContent, x) == Some(newContent[i..i + Width(x)])
  {
    var m := Longest(oldContent, newContent, i, cands[i]);
    if cands[i] != [] && m.len > 0 then
      LongestCopyRebuilds(oldContent, newContent, i, cands[i]);
      Copy(m.pos as nat, m.len)
    else
      Add(newContent[i..LiteralEnd(cands, i + 1)])
  }

  /** The choice made at `i`: a copy is of a candidate and at least as long
      as every candidate's match; a literal is emitted only when no candidate
      matches even one byte, and runs up to the next offset with candidates. */
  lemma {:induction false} EncodeStepChoice(oldContent: seq<Byte>, newContent: seq<Byte>, cands: seq<seq<nat>>, i: nat)
    requires i < |newContent| == |cands|
    ensures var x := EncodeStep(oldContent, newContent, cands, i);
      && (x.Copy? ==> x.pos in cands[i])
      && (x.Copy? ==> forall k :: 0 <= k < |cands[i]| ==> MatchAt(oldContent, newContent, i, cands[i][k]) <= x.len)
      && (x.Add? ==> forall k :: 0 <= k < |cands[i]| ==> MatchAt(oldContent, newContent, i, cands[i][k]) == 0)
      && (x.Add? ==> forall k :: i < k < i + Width(x) ==> cands[k] == [])
      && (x.Add? && i + Width(x) < |newContent| ==> cands[i + Width(x)] != [])
  {
  }

  /** Every instruction of `steps` covers at least one byte from its offset
      and no byte past the end. */
  predicate Tiles(steps: seq<Instr>) {
    forall i :: 0 <= i < |steps| ==> 0 < Width(steps[i]) <= |steps| - i
  }

  /** `steps` tiles the new content and each instruction rebuilds exactly
      the bytes it covers. */
  predicate Rebuilds(oldContent: seq<Byte>, newContent: seq<Byte>, steps: seq<Instr>) {
    && |steps| == |newContent|
    && Tiles(steps)
    && forall i :: 0 <= i < |steps| ==>
         Step(oldContent, steps[i]) == Some(newContent[i..i + Width(steps[i])])
  }

  /** The instruction the encoder emits at each offset of the new content. */
  function StepTable(oldContent: seq<Byte>, newContent: seq<Byte>, cands: seq<seq<nat>>): (steps: seq<Instr>)
    requires |newContent| == |cands|
    ensures Rebuilds(oldContent, newContent, steps)
  {
    seq(|newContent|, i requires 0 <= i < |newContent| => EncodeStep(oldContent, newContent, cands, i))
  }

  /** The instructions emitted from offset `i` on: the one at `i`, then
      those from the offset where it ends. */
  function Walk(steps: seq<Instr>, i: nat): (instrs: seq<Instr>)
    requires Tiles(steps) && i <= |steps|
    ensures |instrs| <= |steps| - i
    ensures i < |steps| ==> instrs != [] && instrs[0] == steps[i]
    decreases |steps| - i
  {
    if i == |steps| then [] else [steps[i]] + Walk(steps, i + Width(steps[i]))
  }

  /** The instructions of the revision from `oldContent` to `newContent`. */
  function Encode(oldContent: seq<Byte>, newContent: seq<Byte>): (instrs: seq<Instr>)
    ensures |instrs| <= |newContent|
    ensures instrs == [] <==> newContent == []
  {
    Walk(StepTable(oldContent, newContent, CandidateTable(oldContent, newContent)), 0)
  }

  /** The encoder makes progress at `i`: no candidates there, or one that
      matches at least one byte. */
  predicate Progresses(oldContent: seq<Byte>, newContent: seq<Byte>, cands: seq<seq<nat>>, i: nat)
    requires i < |newContent| == |cands|
  {
    cands[i] == [] || Longest(oldContent, newContent, i, cands[i]).len > 0
  }

  /** The walk from `k` visits offset `i`: `k` itself, then the offsets the
      walk from where the instruction at `k` ends visits. */
  predicate Visited(steps: seq<Instr>, k: nat, i: nat)
    requires Tiles(steps) && k <= |steps|
    decreases |steps| - k
  {
    k < |steps| && (i == k || Visited(steps, k + Width(steps[k]), i))
  }

  /** Every visited offset lies in the content, at or after where the walk
      starts. */
  lemma {:induction false} VisitedBounds(steps: seq<Instr>, k: nat, i: nat)
    requires Tiles(steps) && k <= |steps| && Visited(steps, k, i)
    ensures k <= i < |steps|
    decreases |steps| - k
  {
    if i != k {
      VisitedBounds(steps, k + Width(steps[k]), i);
    }
  }

  /** A visited offset is followed by another visited one, unless the
      instruction there ends the content. */
  lemma {:induction false} VisitedNext(steps: seq<Instr>, k: nat, i: nat)
    requires Tiles(steps) && k <= |steps| && Visited(steps, k, i)
    ensures i < |steps| && (i + Width(steps[i]) < |steps| ==> Visited(steps, k, i + Width(steps[i])))
    decreases |steps| - k
  {
    VisitedBounds(steps, k, i);
    if i != k {
      VisitedNext(steps, k + Width(steps[k]), i);
    }
  }

  /** No offset the loop visits stalls the encoder as written. */
  predicate NoStall(oldContent: seq<Byte>, newContent: seq<Byte>) {
    var cands := CandidateTable(oldContent, newContent);
    var steps := StepTable(oldContent, newContent, cands);
    forall i :: 0 <= i < |newContent| && Visited(steps, 0, i) ==> Progresses(oldContent, newContent, cands, i)
  }

  /** Where the encoder makes no progress, the step as written is the empty
      literal: the loop writes `+//` and stays at `i`. */
  lemma {:induction false} StallRepeats(oldContent: seq<Byte>, newContent: seq<Byte>, cands: seq<seq<nat>>, i: nat)
    requires i < |newContent| == |cands| && !Progresses(oldContent, newContent, cands, i)
    ensures StepAsWritten(oldContent, newContent, cands, i) == Add([])
    ensures Width(StepAsWritten(oldContent, newContent, cands, i)) == 0
  {
    assert LiteralEnd(cands, i) == i;
  }

  /** Where the encoder makes progress, the step as written and the step
      that always takes a byte agree. */
  lemma {:induction false} StepsAgree(oldContent: seq<Byte>, newContent: seq<Byte>, cands: seq<seq<nat>>, i: nat)
    requires i < |newContent| == |cands| && Progresses(oldContent, newContent, cands, i)
    ensures StepAsWritten(oldContent, newContent, cands, i) == EncodeStep(oldContent, newContent, cands, i)
  {
    if cands[i] == [] {
      assert LiteralEnd(cands, i) == LiteralEnd(cands, i + 1);
    }
  }

  /** Applying the instructions emitted from `i` rebuilds the new content
      from `i` on. */
  lemma {:induction false} WalkApplies(oldContent: seq<Byte>, newContent: seq<Byte>, steps: seq<Instr>, i: nat)
    requires Rebuilds(oldContent, newContent, steps) && i <= |steps|
    ensures Apply(oldContent, Walk(steps, i)) == Some(newContent[i..])
    decreases |steps| - i
  {
    if i < |steps| {
      var next := i + Width(steps[i]);
      WalkApplies(oldContent, newContent, steps, next);
      ApplyCovers(oldContent, steps[i], Walk(steps, next), newContent, i, next);
    } else {
      assert newContent[i..] == [];
    }
  }

  /** No literal of `instrs` holds `b`. */
  predicate LiteralsAvoid(instrs: seq<Instr>, b: Byte) {
    forall k :: 0 <= k < |instrs| && instrs[k].Add? ==> b !in instrs[k].data
  }

  /** A byte missing from the new content is missing from every literal
      emitted from `i` on, since each literal is a slice of it. */
  lemma {:induction false} LiteralsAreSlices(oldContent: seq<Byte>, newContent: seq<Byte>, steps: seq<Instr>, i: nat, b: Byte)
    requires Rebuilds(oldContent, newContent, steps) && i <= |steps|
    requires b !in newContent
    ensures LiteralsAvoid(Walk(steps, i), b)
    decreases |steps| - i
  {
    if i < |steps| {
      var x := steps[i];
      var next := i + Width(x);
      LiteralsAreSlices(oldContent, newContent, steps, next, b);
      var rest := Walk(steps, next);
      var instrs := Walk(steps, i);
      assert instrs == [x] + rest;
      forall k | 0 <= k < |instrs| && instrs[k].Add?
        ensures b !in instrs[k].data
      {
        if k == 0 {
          assert Step(oldContent, x) == Some(newContent[i..next]);
        } else {
          assert instrs[k] == rest[k - 1];
        }
      }
    }
  }

  /** A new content that is framable gives framable literals. */
  lemma {:induction false} WalkFramable(oldContent: seq<Byte>, newContent: seq<Byte>, steps: seq<Instr>)
    requires Rebuilds(oldContent, newContent, steps)
    requires Framable(newContent)
    ensures AllFramable(Walk(steps, 0))
  {
    if SLASH !in newContent {
      LiteralsAreSlices(oldContent, newContent, steps, 0, SLASH);
    } else {
      LiteralsAreSlices(oldContent, newContent, steps, 0, SEMICOLON);
    }
  }

  /** The round trip of the whole tool: revising the old content with the
      revision created from it and the new content gives back the new
      content, whenever every literal can be framed. */
  lemma {:induction false} RoundTrip(oldContent: seq<Byte>, newContent: seq<Byte>)
    requires AllFramable(Encode(oldContent, newContent))
    ensures Decode(oldContent, Serialize(Encode(oldContent, newContent))) == Some(newContent)
  {
    RoundTripFormat(Encode(oldContent, newContent));
    EncodeApplies(oldContent, newContent);
  }

  /** Applying the instructions of the revision to the old content gives
      the new content. */
  lemma {:induction false} EncodeApplies(oldContent: seq<Byte>, newContent: seq<Byte>)
    ensures Apply(oldContent, Encode(oldContent, newContent)) == Some(newContent)
  {
    var steps := StepTable(oldContent, newContent, CandidateTable(oldContent, newContent));
    WalkApplies(oldContent, newContent, steps, 0);
    assert newContent[0..] == newContent;
  }

  /** The round trip for any new content that lacks '/' or lacks ';'. */
  lemma {:induction false} RoundTripFramable(oldContent: seq<Byte>, newContent: seq<Byte>)
    requires Framable(newContent)
    ensures Decode(oldContent, Serialize(Encode(oldContent, newContent))) == Some(newContent)
  {
    WalkFramable(oldContent, newContent, StepTable(oldContent, newContent, CandidateTable(oldContent, newContent)));
    RoundTrip(oldContent, newContent);
  }

  /** The build loop of revision.cpp:59-67: a fresh table holding the chunk
      at every offset that starts a full chunk of the old content. */
  method BuildIndex(oldContent: seq<Byte>) returns (t: HashTable)
    ensures fresh(t)
    ensures t.Valid() && Indexes(t, oldContent)
  {
    t := new HashTable();
    var count := ChunkCount(|oldContent|);
    for i := 0 to count
      invariant t.Valid()
      invariant forall b :: 0 <= b < TABLE_SIZE ==> t.table[b] == IndexedBucket(oldContent, i, b)
    {
      var chunk := oldContent[i..i + CHUNK_SIZE];
      HashRangeIsHash(oldContent, i, i + CHUNK_SIZE);
      t.Insert(chunk, i);
    }
  }

  /** The inner loop of revision.cpp:82-85: how far candidate `p` matches at
      offset `i`. */
  method ExtendMatch(oldContent: seq<Byte>, newContent: seq<Byte>, i: nat, p: nat) returns (matchLen: nat)
    requires i <= |newContent|
    ensures matchLen == MatchAt(oldContent, newContent, i, p)
  {
    matchLen := 0;
    while i + matchLen < |newContent| && p + matchLen < |oldContent| && newContent[i + matchLen] == oldContent[p + matchLen]
      invariant i + matchLen <= |newContent|
      invariant MatchAt(oldContent, newContent, i, p) == matchLen + MatchAt(oldContent, newContent, i + matchLen, p + matchLen)
      decreases |newContent| - matchLen
    {
      matchLen := matchLen + 1;
    }
  }

  /** The search of revision.cpp:79-90 over the positions the index returned. */
  method FindLongestMatch(oldContent: seq<Byte>, newContent: seq<Byte>, i: nat, positions: seq<nat>)
    returns (bestMatchPos: int, maxMatchLen: nat)
    requires i <= |newContent|
    ensures Match(bestMatchPos, maxMatchLen) == Longest(oldContent, newContent, i, positions)
  {
    maxMatchLen, bestMatchPos := 0, -1;
    for k := 0 to |positions|
      invariant Match(bestMatchPos, maxMatchLen) == Longest(oldContent, newContent, i, positions[..k])
    {
      assert positions[..k + 1][..k] == positions[..k];
      var matchLen := ExtendMatch(oldContent, newContent, i, positions[k]);
      if matchLen > maxMatchLen {
        maxMatchLen, bestMatchPos := matchLen, positions[k];
      }
    }
    assert positions[..|positions|] == positions;
  }

  /** The delimiter choice of revision.cpp:106-112. */
  method ChooseDelimiter(addData: seq<Byte>) returns (delimiter: Byte)
    ensures delimiter == Delimiter(addData)
  {
    delimiter := SLASH;
    for k := 0 to |addData|
      invariant delimiter == SLASH && SLASH !in addData[..k]
    {
      if addData[k] == delimiter {
        delimiter := SEMICOLON;
        break;
      }
      assert addData[..k + 1] == addData[..k] + [addData[k]];
    }
    if delimiter == SLASH {
      assert addData[..|addData|] == addData;
    }
  }

  /** Looking up the chunk at each offset of the new content in `t` gives
      the corresponding entry of `cands`. */
  ghost predicate IndexAnswers(t: HashTable, newContent: seq<Byte>, cands: seq<seq<nat>>)
    reads t
  {
    && t.Valid()
    && |cands| == |newContent|
    && forall i :: 0 <= i < |newContent| ==>
         Matching(t.table[ChunkKey(newContent, i) % TABLE_SIZE], ChunkKey(newContent, i)) == cands[i]
  }

  /** A table that indexes the old content answers with the candidate table. */
  lemma {:induction false} IndexAnswersTable(t: HashTable, oldContent: seq<Byte>, newContent: seq<Byte>)
    requires t.Valid() && Indexes(t, oldContent)
    ensures IndexAnswers(t, newContent, CandidateTable(oldContent, newContent))
  {
    var cands := CandidateTable(oldContent, newContent);
    forall i | 0 <= i < |newContent|
      ensures Matching(t.table[ChunkKey(newContent, i) % TABLE_SIZE], ChunkKey(newContent, i)) == cands[i]
    {
      var chunk := newContent[i..ChunkEnd(newContent, i)];
      LookupInIndex(t, oldContent, chunk);
      HashRangeIsHash(newContent, i, ChunkEnd(newContent, i));
    }
  }

  /** `createRevision` (revision.cpp:54-115) on contents already read: the
      revision it writes. The loop as written only ends when no offset it
      visits stalls it (see StallRepeats); there it writes the script of
      Encode. */
  method CreateRevision(oldContent: seq<Byte>, newContent: seq<Byte>) returns (revision: seq<Byte>)
    requires NoStall(oldContent, newContent)
    ensures revision == Serialize(Encode(oldContent, newContent))
  {
    var oldChunks := BuildIndex(oldContent);
    IndexAnswersTable(oldChunks, oldContent, newContent);
    ghost var cands := CandidateTable(oldContent, newContent);
    revision := WriteInstructions(oldChunks, oldContent, newContent, cands, StepTable(oldContent, newContent, cands));
  }

  /** The main loop of revision.cpp:69-114 over an index that answers with
      `cands` at every offset. */
  method WriteInstructions(oldChunks: HashTable, oldContent: seq<Byte>, newContent: seq<Byte>,
                           ghost cands: seq<seq<nat>>, ghost steps: seq<Instr>)
    returns (revision: seq<Byte>)
    requires IndexAnswers(oldChunks, newContent, cands)
    requires |steps| == |newContent| && Tiles(steps)
    requires forall i :: 0 <= i < |newContent| && Visited(steps, 0, i) ==> Progresses(oldContent, newContent, cands, i)
    requires forall k {:trigger EncodeStep(oldContent, newContent, cands, k)} ::
               0 <= k < |newContent| ==> steps[k] == EncodeStep(oldContent, newContent, cands, k)
    ensures revision == Serialize(Walk(steps, 0))
  {
    revision := [];
    var i := 0;
    while i < |newContent|
      invariant i <= |newContent|
      invariant i < |newContent| ==> Visited(steps, 0, i)
      invariant Serialize(Walk(steps, 0)) == revision + Serialize(Walk(steps, i))
      decreases |newContent| - i
    {
      assert Progresses(oldContent, newContent, cands, i);
      StepsAgree(oldContent, newContent, cands, i);
      assert steps[i] == EncodeStep(oldContent, newContent, cands, i);
      var piece, next, x := WriteStep(oldChunks, oldContent, newContent, cands, i);
      assert x == steps[i];
      VisitedNext(steps, 0, i);
      WalkWrites(steps, i, piece, next, revision);
      revision := revision + piece;
      i := next;
    }
  }

  /** One pass of the loop body of revision.cpp:72-114: the instruction
      emitted at `i`, the bytes written for it, and the offset the loop moves
      on to. */
  method WriteStep(oldChunks: HashTable, oldContent: seq<Byte>, newContent: seq<Byte>, ghost cands: seq<seq<nat>>, i: nat)
    returns (piece: seq<Byte>, next: nat, x: Instr)
    requires IndexAnswers(oldChunks, newContent, cands)
    requires i < |newContent|
    ensures x == StepAsWritten(oldContent, newContent, cands, i)
    ensures next == i + Width(x) && piece == SerializeInstr(x)
  {
    var positions := oldChunks.GetPositions(newContent[i..ChunkEnd(newContent, i)]);
    HashRangeIsHash(newContent, i, ChunkEnd(newContent, i));
    assert positions == cands[i];
    if positions != [] {
      var bestMatchPos, maxMatchLen := FindLongestMatch(oldContent, newContent, i, positions);
      if maxMatchLen > 0 {
        piece := [HASH] + Decimal(bestMatchPos as nat) + [COMMA] + Decimal(maxMatchLen);
        x := Copy(bestMatchPos as nat, maxMatchLen);
        next := i + maxMatchLen;
        return;
      }
    }
    var addStart := i;
    next := ScanLiteral(oldChunks, newContent, cands, addStart);
    var addData := newContent[addStart..next];
    var delimiter := ChooseDelimiter(addData);
    piece := [PLUS, delimiter] + addData + [delimiter];
    x := Add(addData);
  }

  /** The literal scan of revision.cpp:101-104: moves on from `addStart` until
      the lookup finds candidates or the new content ends. */
  method ScanLiteral(oldChunks: HashTable, newContent: seq<Byte>, ghost cands: seq<seq<nat>>, addStart: nat)
    returns (i: nat)
    requires IndexAnswers(oldChunks, newContent, cands)
    requires addStart <= |newContent|
    ensures i == LiteralEnd(cands, addStart)
  {
    i := addStart;
    while i < |newContent|
      invariant addStart <= i <= |newContent|
      invariant forall k :: addStart <= k < i ==> cands[k] == []
    {
      var positions := oldChunks.GetPositions(newContent[i..ChunkEnd(newContent, i)]);
      HashRangeIsHash(newContent, i, ChunkEnd(newContent, i));
      assert positions == cands[i];
      if positions != [] {
        break;
      }
      i := i + 1;
    }
    LiteralEndIs(cands, addStart, i);
  }

  /** One step of the walk, as written after `written`: the bytes of the
      instruction at `i` followed by those of the walk from where it ends. */
  lemma {:induction false} WalkWrites(steps: seq<Instr>, i: nat, piece: seq<Byte>, next: nat, written: seq<Byte>)
    requires Tiles(steps) && i < |steps|
    requires piece == SerializeInstr(steps[i]) && next == i + Width(steps[i])
    ensures written + Serialize(Walk(steps, i)) == (written + piece) + Serialize(Walk(steps, next))
  {
    var rest := Walk(steps, next);
    assert Walk(steps, i) == [steps[i]] + rest;
    SerializeCons(steps[i], rest);
    var tail := Serialize(rest);
    assert written + (piece + tail) == (written + piece) + tail;
  }

  /** One step of the walk. */
  lemma {:induction false} WalkUnfold(steps: seq<Instr>, i: nat)
    requires Tiles(steps) && i < |steps|
    ensures Walk(steps, i) == [steps[i]] + Walk(steps, i + Width(steps[i]))
  {
  }
}
