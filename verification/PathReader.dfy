/** Splitting fd's output into paths: accept_path and process_buffer of
    src/files/files_search.c. */
module PathReader {
  import opened CStrings

  const FILES_MAX_CACHE: nat := 50000

  type Path = seq<byte>

  /** path_excluded; the glob matching behind it is a library call. */
  type Exclusion = Path -> bool

  /** The parts of a search context that reading its pipe changes. */
  datatype Reader = Reader(buffer: seq<byte>, paths: seq<Path>, capped: bool)

  const NEW_READER := Reader([], [], false)

  function AcceptPath(r: Reader, path: Path, excluded: Exclusion): Reader {
    if path == [] || excluded(path) then r
    else if |r.paths| >= FILES_MAX_CACHE then r.(capped := true)
    else r.(paths := r.paths + [path])
  }

  /** Index of the first NUL, or the length. */
  function FirstNul(s: seq<byte>): (z: nat)
    ensures z <= |s| && (z < |s| ==> s[z] == 0) && forall k :: 0 <= k < z ==> s[k] != 0
  {
    if s == [] || s[0] == 0 then 0 else 1 + FirstNul(s[1..])
  }

  /** Take terminated pieces off the buffer until none is left or the cap is hit. */
  function Consume(r: Reader, excluded: Exclusion): Reader
    decreases |r.buffer|
  {
    var z := FirstNul(r.buffer);
    if z == |r.buffer| then r
    else
      var r' := AcceptPath(r, r.buffer[..z], excluded).(buffer := r.buffer[z + 1..]);
      if r'.capped then r' else Consume(r', excluded)
  }

  /** process_buffer */
  function Process(r: Reader, eof: bool, excluded: Exclusion): Reader {
    var r' := Consume(r, excluded);
    if eof && r'.buffer != [] && !r'.capped then AcceptPath(r', r'.buffer, excluded).(buffer := []) else r'
  }

  // ---- The program ----

  class PathBuffer {
    const excluded: Exclusion
    var buffer: seq<byte>
    var paths: seq<Path>
    var capReached: bool

    constructor (excluded: Exclusion)
      ensures this.excluded == excluded && State() == NEW_READER
    {
      this.excluded := excluded;
      buffer, paths, capReached := [], [], false;
    }

    ghost function State(): Reader
      reads this
    {
      Reader(buffer, paths, capReached)
    }

    method Accept(path: Path)
      modifies this
      ensures State() == AcceptPath(old(State()), path, excluded)
    {
      if |path| == 0 { return; }
      if excluded(path) { return; }
      if |paths| >= FILES_MAX_CACHE {
        capReached := true;
        return;
      }
      paths := paths + [path];
    }

    method Append(chunk: seq<byte>)
      modifies this
      ensures State() == old(State()).(buffer := old(buffer) + chunk)
    {
      buffer := buffer + chunk;
    }

    /** One pass over the buffer with an index, then one removal of its front. */
    method ProcessBuffer(eof: bool)
      requires !capReached
      modifies this
      ensures State() == Process(old(State()), eof, excluded)
    {
      hide Consume, FirstNul;
      var start, i := 0, 0;
      ghost var target := Consume(State(), excluded);
      assert buffer[0..] == buffer;
      while i < |buffer| && !capReached
        invariant start <= i <= |buffer| && buffer == old(buffer)
        invariant forall k :: start <= k < i ==> buffer[k] != 0
        invariant capReached ==> target == Reader(buffer[start..], paths, true)
        invariant !capReached ==> target == Consume(Reader(buffer[start..], paths, false), excluded)
      {
        if buffer[i] == 0 {
          ghost var rest := buffer[start..];
          FirstNulAt(rest, i - start);
          ConsumeStep(Reader(rest, paths, false), excluded);
          assert rest[..i - start] == buffer[start..i] && rest[i - start + 1..] == buffer[i + 1..];
          Accept(buffer[start..i]);
          start := i + 1;
        }
        i := i + 1;
      }
      if !capReached {
        NoNulLeft(buffer[start..]);
        ConsumeStep(Reader(buffer[start..], paths, false), excluded);
      }
      if start > 0 {
        buffer := buffer[start..];
      }
      assert State() == target;
      if eof && |buffer| > 0 && !capReached {
        Accept(buffer);
        buffer := [];
      }
    }
  }

  lemma {:induction false} FirstNulAt(s: seq<byte>, z: nat)
    requires z < |s| && s[z] == 0 && forall k :: 0 <= k < z ==> s[k] != 0
    ensures FirstNul(s) == z
  {
  }

  lemma {:induction false} NoNulLeft(s: seq<byte>)
    requires forall k :: 0 <= k < |s| ==> s[k] != 0
    ensures FirstNul(s) == |s|
  {
  }

  // ---- The reference: split the whole stream ----

  /** The pieces of `s` that a NUL ends. */
  function Terminated(s: seq<byte>): seq<Path>
    decreases |s|
  {
    var z := FirstNul(s);
    if z == |s| then [] else [s[..z]] + Terminated(s[z + 1..])
  }

  /** What follows the last NUL. */
  function Remainder(s: seq<byte>): seq<byte>
    decreases |s|
  {
    var z := FirstNul(s);
    if z == |s| then s else Remainder(s[z + 1..])
  }

  /** Pieces worth keeping: not empty, not excluded. */
  function Kept(pieces: seq<Path>, excluded: Exclusion): seq<Path> {
    if pieces == [] then []
    else (if pieces[0] == [] || excluded(pieces[0]) then [] else [pieces[0]]) + Kept(pieces[1..], excluded)
  }

  function FirstN<T>(s: seq<T>, n: nat): (r: seq<T>)
    ensures r <= s && |r| == if |s| < n then |s| else n
  {
    if |s| <= n then s else s[..n]
  }

  /** The paths of a stream: its kept pieces, the unterminated last one included
      when `whole`, cut to the cache size. */
  function PathsOf(stream: seq<byte>, whole: bool, excluded: Exclusion): seq<Path> {
    FirstN(Kept(Terminated(stream) + if whole then [Remainder(stream)] else [], excluded), FILES_MAX_CACHE)
  }

  lemma {:induction false} KeptConcat(a: seq<Path>, b: seq<Path>, excluded: Exclusion)
    ensures Kept(a + b, excluded) == Kept(a, excluded) + Kept(b, excluded)
  {
    if a == [] {
      assert a + b == b;
    } else {
      assert (a + b)[1..] == a[1..] + b;
      KeptConcat(a[1..], b, excluded);
    }
  }

  lemma {:induction false} SplitStep(s: seq<byte>)
    ensures var z := FirstNul(s);
            if z == |s| then Terminated(s) == [] && Remainder(s) == s
            else Terminated(s) == [s[..z]] + Terminated(s[z + 1..]) && Remainder(s) == Remainder(s[z + 1..])
  {
    hide FirstNul;
  }

  /** Splitting may stop anywhere and go on with what is left over. */
  lemma {:induction false} SplitConcat(s: seq<byte>, t: seq<byte>)
    ensures Terminated(s + t) == Terminated(s) + Terminated(Remainder(s) + t)
    ensures Remainder(s + t) == Remainder(Remainder(s) + t)
    decreases |s|
  {
    hide FirstNul, Terminated, Remainder;
    var z := FirstNul(s);
    SplitStep(s);
    if z < |s| {
      FirstNulAt(s + t, z);
      SplitStep(s + t);
      assert (s + t)[..z] == s[..z] && (s + t)[z + 1..] == s[z + 1..] + t;
      SplitConcat(s[z + 1..], t);
    }
  }

  /** A reader that has consumed `stream`, in any chunks: either it holds all
      kept pieces and the rest of the stream, or it hit the cap. */
  predicate HasRead(r: Reader, stream: seq<byte>, excluded: Exclusion) {
    var kept := Kept(Terminated(stream), excluded);
    if r.capped then |kept| > FILES_MAX_CACHE && r.paths == kept[..FILES_MAX_CACHE]
    else |kept| <= FILES_MAX_CACHE && r.paths == kept && r.buffer == Remainder(stream)
  }

  lemma {:induction false} TerminatedStep(s: seq<byte>, excluded: Exclusion)
    requires FirstNul(s) < |s|
    ensures var z := FirstNul(s);
            && Kept(Terminated(s), excluded)
               == (if s[..z] == [] || excluded(s[..z]) then [] else [s[..z]]) + Kept(Terminated(s[z + 1..]), excluded)
            && Remainder(s) == Remainder(s[z + 1..])
  {
    hide FirstNul, Terminated, Remainder;
    SplitStep(s);
    assert Terminated(s)[1..] == Terminated(s[FirstNul(s) + 1..]);
  }

  lemma {:induction false} ConsumeStep(r: Reader, excluded: Exclusion)
    ensures var z := FirstNul(r.buffer);
            if z == |r.buffer| then Consume(r, excluded) == r
            else
              var r' := AcceptPath(r, r.buffer[..z], excluded).(buffer := r.buffer[z + 1..]);
              Consume(r, excluded) == if r'.capped then r' else Consume(r', excluded)
  {
  }

  lemma {:induction false} NothingTerminated(s: seq<byte>, excluded: Exclusion)
    requires FirstNul(s) == |s|
    ensures Kept(Terminated(s), excluded) == [] && Remainder(s) == s
  {
    hide FirstNul, Terminated, Remainder;
    SplitStep(s);
  }

  lemma {:induction false} ConsumeTakesAll(r: Reader, excluded: Exclusion)
    requires !r.capped && |r.paths| <= FILES_MAX_CACHE
    ensures var all := r.paths + Kept(Terminated(r.buffer), excluded);
            var r' := Consume(r, excluded);
            if |all| <= FILES_MAX_CACHE then r' == Reader(Remainder(r.buffer), all, false)
            else r'.capped && r'.paths == all[..FILES_MAX_CACHE]
    decreases |r.buffer|
  {
    hide Consume, Terminated, Kept, Remainder;
    var z := FirstNul(r.buffer);
    ConsumeStep(r, excluded);
    if z < |r.buffer| {
      TerminatedStep(r.buffer, excluded);
      var r1 := AcceptPath(r, r.buffer[..z], excluded).(buffer := r.buffer[z + 1..]);
      var all := r.paths + Kept(Terminated(r.buffer), excluded);
      if r1.capped {
        assert all[..FILES_MAX_CACHE] == r.paths;
      } else {
        ConsumeTakesAll(r1, excluded);
        assert all == r1.paths + Kept(Terminated(r1.buffer), excluded);
      }
    } else {
      NothingTerminated(r.buffer, excluded);
    }
  }

  lemma {:induction false} NewReaderHasReadNothing(excluded: Exclusion)
    ensures HasRead(NEW_READER, [], excluded)
  {
  }

  /** One more chunk, of any length. */
  lemma {:induction false} ChunkExtends(r: Reader, stream: seq<byte>, chunk: seq<byte>, excluded: Exclusion)
    requires HasRead(r, stream, excluded) && !r.capped
    ensures HasRead(Process(r.(buffer := r.buffer + chunk), false, excluded), stream + chunk, excluded)
  {
    SplitConcat(stream, chunk);
    KeptConcat(Terminated(stream), Terminated(Remainder(stream) + chunk), excluded);
    ConsumeTakesAll(r.(buffer := r.buffer + chunk), excluded);
  }

  lemma {:induction false} RemainderHasNoNul(s: seq<byte>)
    ensures FirstNul(Remainder(s)) == |Remainder(s)|
    decreases |s|
  {
    if FirstNul(s) < |s| {
      RemainderHasNoNul(s[FirstNul(s) + 1..]);
    }
  }

  /** The end of the stream. */
  lemma {:induction false} EofCompletes(r: Reader, stream: seq<byte>, excluded: Exclusion)
    requires HasRead(r, stream, excluded) && !r.capped
    ensures Process(r, true, excluded).paths == PathsOf(stream, true, excluded)
  {
    RemainderHasNoNul(stream);
    KeptConcat(Terminated(stream), [Remainder(stream)], excluded);
    assert [Remainder(stream)][1..] == [];
  }

  /** Hitting the cap fixes the result, whatever fd would still have written. */
  lemma {:induction false} CapIsFinal(r: Reader, stream: seq<byte>, unread: seq<byte>, excluded: Exclusion)
    requires HasRead(r, stream, excluded) && r.capped
    ensures r.paths == PathsOf(stream + unread, true, excluded)
  {
    SplitConcat(stream, unread);
    var more := Terminated(Remainder(stream) + unread) + [Remainder(stream + unread)];
    assert Terminated(stream + unread) + [Remainder(stream + unread)] == Terminated(stream) + more;
    KeptConcat(Terminated(stream), more, excluded);
  }

  // ---- Chunk independence ----

  function Flatten(chunks: seq<seq<byte>>): seq<byte> {
    if chunks == [] then [] else Flatten(chunks[..|chunks| - 1]) + chunks[|chunks| - 1]
  }

  /** The reader after the given chunks; a capped reader is not read any further. */
  function Feed(chunks: seq<seq<byte>>, excluded: Exclusion): Reader {
    if chunks == [] then NEW_READER
    else
      var r := Feed(chunks[..|chunks| - 1], excluded);
      if r.capped then r else Process(r.(buffer := r.buffer + chunks[|chunks| - 1]), false, excluded)
  }

  lemma {:induction false} FeedSettles(chunks: seq<seq<byte>>, excluded: Exclusion)
    ensures var r := Feed(chunks, excluded);
            if r.capped then r.paths == PathsOf(Flatten(chunks), true, excluded)
                             && exists n: nat :: n <= |chunks| && HasRead(r, Flatten(chunks[..n]), excluded)
            else HasRead(r, Flatten(chunks), excluded)
  {
    if chunks == [] {
      NewReaderHasReadNothing(excluded);
    } else {
      var front, last := chunks[..|chunks| - 1], chunks[|chunks| - 1];
      FeedSettles(front, excluded);
      var r := Feed(front, excluded);
      if r.capped {
        var n: nat :| n <= |front| && HasRead(r, Flatten(front[..n]), excluded);
        assert front[..n] == chunks[..n];
        FlattenSplit(chunks, n);
        CapIsFinal(r, Flatten(chunks[..n]), Flatten(chunks[n..]), excluded);
      } else {
        ChunkExtends(r, Flatten(front), last, excluded);
        assert chunks[..|chunks|] == chunks;
        if Feed(chunks, excluded).capped {
          CapIsFinal(Feed(chunks, excluded), Flatten(chunks), [], excluded);
          assert Flatten(chunks) + [] == Flatten(chunks);
        }
      }
    }
  }

  lemma {:induction false} FlattenSplit(chunks: seq<seq<byte>>, n: nat)
    requires n <= |chunks|
    ensures Flatten(chunks) == Flatten(chunks[..n]) + Flatten(chunks[n..])
    decreases |chunks|
  {
    if n == |chunks| {
      assert chunks[..n] == chunks && chunks[n..] == [];
    } else {
      var front := chunks[..|chunks| - 1];
      FlattenSplit(front, n);
      assert front[..n] == chunks[..n] && chunks[n..][..|chunks| - 1 - n] == front[n..];
    }
  }

  /** files_search.c:335-376 and 398-416.  However the stream is cut into chunks,
      the paths at its end are those of the whole stream. */
  lemma {:induction false} ChunkingIsIrrelevant(chunks: seq<seq<byte>>, excluded: Exclusion)
    ensures var r := Feed(chunks, excluded);
            (if r.capped then r else Process(r, true, excluded)).paths == PathsOf(Flatten(chunks), true, excluded)
  {
    FeedSettles(chunks, excluded);
    if !Feed(chunks, excluded).capped {
      EofCompletes(Feed(chunks, excluded), Flatten(chunks), excluded);
    }
  }

  // ---- Writing and reading back ----

  /** What fd prints with -0: every path and a NUL. */
  function Written(ps: seq<Path>): seq<byte> {
    if ps == [] then [] else ps[0] + [0] + Written(ps[1..])
  }

  predicate NulFree(ps: seq<Path>) {
    forall k :: 0 <= k < |ps| ==> IsCString(ps[k])
  }

  lemma {:induction false} WrittenSplits(ps: seq<Path>, last: Path)
    requires NulFree(ps) && IsCString(last)
    ensures Terminated(Written(ps) + last) == ps && Remainder(Written(ps) + last) == last
  {
    hide FirstNul, Terminated, Remainder;
    var s := Written(ps) + last;
    SplitStep(s);
    if ps == [] {
      assert s == last;
      NoNulLeft(last);
    } else {
      assert s == ps[0] + [0] + (Written(ps[1..]) + last);
      FirstNulAt(s, |ps[0]|);
      assert s[..|ps[0]|] == ps[0] && s[|ps[0]| + 1..] == Written(ps[1..]) + last;
      WrittenSplits(ps[1..], last);
    }
  }

  lemma {:induction false} KeptMembers(ps: seq<Path>, excluded: Exclusion)
    ensures |Kept(ps, excluded)| <= |ps|
    ensures forall p :: p in Kept(ps, excluded) <==> p in ps && p != [] && !excluded(p)
  {
    if ps != [] {
      KeptMembers(ps[1..], excluded);
      assert ps == [ps[0]] + ps[1..];
    }
  }

  lemma {:induction false} KeepsAll(ps: seq<Path>, excluded: Exclusion)
    requires forall k :: 0 <= k < |ps| ==> ps[k] != [] && !excluded(ps[k])
    ensures Kept(ps, excluded) == ps
  {
    if ps != [] {
      KeepsAll(ps[1..], excluded);
      assert ps == [ps[0]] + ps[1..];
    }
  }

  lemma {:induction false} EmptyIsDropped(excluded: Exclusion)
    ensures Kept([[]], excluded) == []
  {
    var pieces: seq<Path> := [[]];
    assert pieces[1..] == [];
  }

  /** Up to 50000 paths are read back in order, of more the first 50000; empty and
      excluded ones are dropped, and no others. */
  lemma {:induction false} WrittenIsRead(ps: seq<Path>, excluded: Exclusion)
    requires NulFree(ps)
    ensures var read := PathsOf(Written(ps), true, excluded);
            && |read| <= 50000
            && (forall p :: p in read ==> p in ps && p != [] && !excluded(p))
            && (|ps| <= 50000 ==> forall p :: p in ps && p != [] && !excluded(p) ==> p in read)
            && ((forall p :: p in ps ==> p != [] && !excluded(p)) ==>
                  read == if |ps| <= 50000 then ps else ps[..50000])
  {
    hide Terminated, Remainder, Kept;
    WrittenSplits(ps, []);
    assert Written(ps) + [] == Written(ps);
    KeptConcat(ps, [[]], excluded);
    KeptMembers(ps, excluded);
    EmptyIsDropped(excluded);
    if forall p :: p in ps ==> p != [] && !excluded(p) {
      assert forall k :: 0 <= k < |ps| ==> ps[k] in ps;
      KeepsAll(ps, excluded);
    }
  }

  /** A last path without its NUL is read as well. */
  lemma {:induction false} UnendedIsRead(ps: seq<Path>, last: Path, excluded: Exclusion)
    requires NulFree(ps) && IsCString(last) && last != [] && !excluded(last)
    ensures PathsOf(Written(ps) + last, true, excluded) == PathsOf(Written(ps + [last]), true, excluded)
  {
    hide Terminated, Remainder, Kept;
    WrittenSplits(ps, last);
    WrittenSplits(ps + [last], []);
    assert Written(ps + [last]) + [] == Written(ps + [last]);
    KeptConcat(ps + [last], [[]], excluded);
    EmptyIsDropped(excluded);
  }
}
