/** The match search (byte_stream_matcher.c, hash_chain.c): a ring of the last bytes and a chain of
    earlier positions with the same hash. The chain only proposes positions; what is emitted is
    decided by comparing bytes. */
module ByteMatcher {
  import Arithmetic
  import opened Common
  import opened RingBuffers
  import opened MatchSearch

  /** How far a position lies behind the next free one. */
  function Distance(ring: Ring, position: nat): (d: nat)
    requires ring.Valid() && position < |ring.content|
    ensures d < |ring.content|
  {
    (if ring.position < position then ring.position + |ring.content| else ring.position) - position
  }

  lemma DistanceValue(ring: Ring, position: nat)
    requires ring.Valid() && position < |ring.content|
    ensures Distance(ring, position) ==
            ring.position - position + if ring.position < position then |ring.content| else 0
  {
  }

  lemma GetIsBack(ring: Ring, position: nat, k: nat)
    requires ring.Valid() && position < |ring.content| && k <= Distance(ring, position)
    ensures ring.Get(position + k) == ring.Back(Distance(ring, position) - k)
  {
    if ring.position < position {
      Arithmetic.ModCongruent(position + k, -1, |ring.content|);
    }
  }

  /** `length` bytes from distance `offset` on in the window equal those from `from` on in the source. */
  ghost predicate Matches(window: Ring, source: Ring, offset: int, from: int, length: int)
    requires window.Valid() && source.Valid()
  {
    forall k | 0 <= k < length :: MatchesAt(window, source, offset, from, k)
  }

  ghost predicate MatchesAt(window: Ring, source: Ring, offset: int, from: int, k: int)
    requires window.Valid() && source.Valid()
  {
    window.Back(offset - k) == source.Back(from - k)
  }

  lemma NoMatch(window: Ring, source: Ring, offset: int, from: int)
    requires window.Valid() && source.Valid()
    ensures Matches(window, source, offset, from, 0)
  {
  }

  /** The length of the longest common run, up to the end of what either ring holds. */
  ghost function CommonRun(window: Ring, source: Ring, offset: nat, from: nat): nat
    requires window.Valid() && source.Valid()
    decreases offset
  {
    if offset == 0 || from == 0 || !MatchesAt(window, source, offset, from, 0) then 0
    else 1 + CommonRun(window, source, offset - 1, from - 1)
  }

  lemma {:induction false} CommonRunLongest(window: Ring, source: Ring, offset: nat, from: nat)
    requires window.Valid() && source.Valid()
    ensures var length := CommonRun(window, source, offset, from);
            && length <= offset && length <= from && Matches(window, source, offset, from, length)
            && (length == offset || length == from || !MatchesAt(window, source, offset, from, length))
    decreases offset
  {
    if offset > 0 && from > 0 && MatchesAt(window, source, offset, from, 0) {
      CommonRunLongest(window, source, offset - 1, from - 1);
      forall k: int | 0 <= k < CommonRun(window, source, offset, from)
        ensures MatchesAt(window, source, offset, from, k)
      {
        assert k == 0 || MatchesAt(window, source, offset - 1, from - 1, k - 1);
      }
    }
  }

  lemma RunStep(window: Ring, source: Ring, position: nat, sourcePosition: nat, length: nat)
    requires window.Valid() && source.Valid()
    requires position < |window.content| && sourcePosition < |source.content|
    ensures var offset, from := Distance(window, position) - length, Distance(source, sourcePosition) - length;
            && (offset == 0 <= from || from == 0 <= offset ==> CommonRun(window, source, offset, from) == 0)
            && (offset > 0 && from > 0 ==>
                  CommonRun(window, source, offset, from) ==
                  if window.Get(position + length) != source.Get(sourcePosition + length) then 0
                  else 1 + CommonRun(window, source, offset - 1, from - 1))
  {
    hide Distance, Ring.Get, Ring.Back;
    if length <= Distance(window, position) && length <= Distance(source, sourcePosition) {
      GetIsBack(window, position, length);
      GetIsBack(source, sourcePosition, length);
    }
  }

  /** The longest match at some positions, the first one of that length, or none. */
  ghost function Best(window: Ring, source: Ring, from: nat, positions: seq<nat>): Match
    requires window.Valid() && source.Valid() && forall i | 0 <= i < |positions| :: positions[i] < |window.content|
  {
    if positions == [] then Match(0, 0)
    else
      var best := Best(window, source, from, positions[..|positions| - 1]);
      var offset := Distance(window, positions[|positions| - 1]);
      var length := CommonRun(window, source, offset, from);
      if length > best.length then Match(offset, length) else best
  }

  /** No position gives a longer match, and each position before the one taken gives a shorter one. */
  lemma {:induction false} BestIsLongest(window: Ring, source: Ring, from: nat, positions: seq<nat>)
    returns (taken: nat)
    requires window.Valid() && source.Valid() && forall i | 0 <= i < |positions| :: positions[i] < |window.content|
    ensures var best := Best(window, source, from, positions);
            && (forall i | 0 <= i < |positions| ::
                  CommonRun(window, source, Distance(window, positions[i]), from) <= best.length)
            && (best.length > 0 ==>
                  && taken < |positions| && best.offset == Distance(window, positions[taken])
                  && CommonRun(window, source, best.offset, from) == best.length
                  && forall i | 0 <= i < taken ::
                       CommonRun(window, source, Distance(window, positions[i]), from) < best.length)
    decreases |positions|
  {
    hide Distance, CommonRun;
    taken := 0;
    if positions != [] {
      var before := positions[..|positions| - 1];
      taken := BestIsLongest(window, source, from, before);
      forall i | 0 <= i < |before| ensures positions[i] == before[i] {
      }
      if CommonRun(window, source, Distance(window, positions[|positions| - 1]), from)
         > Best(window, source, from, before).length
      {
        taken := |positions| - 1;
      }
    }
  }

  /** The position to be tried next. */
  ghost function Next(links: seq<int>, first: int, tried: seq<nat>): int {
    if tried == [] then first
    else if tried[|tried| - 1] < |links| then links[tried[|tried| - 1]]
    else 0
  }

  /** The positions met on the way from the first one through the links. */
  ghost predicate OnChain(links: seq<int>, first: int, tried: seq<nat>) {
    tried == []
    || var before := tried[..|tried| - 1];
       OnChain(links, first, before) && tried[|tried| - 1] == Next(links, first, before)
  }

  /** What a search has found so far; before the last position tried it was not long enough. */
  ghost predicate Searched(window: Ring, source: Ring, from: nat, links: seq<int>, first: int, tried: seq<nat>,
                           m: Match)
  {
    && window.Valid() && source.Valid() && OnChain(links, first, tried)
    && (forall i | 0 <= i < |tried| :: tried[i] < |window.content|)
    && m == Best(window, source, from, tried)
    && (tried != [] ==> Best(window, source, from, tried[..|tried| - 1]).length < GOOD_ENOUGH)
  }

  lemma SearchStart(window: Ring, source: Ring, from: nat, links: seq<int>, first: int)
    requires window.Valid() && source.Valid()
    ensures Searched(window, source, from, links, first, [], Match(0, 0)) && Next(links, first, []) == first
  {
  }

  lemma SearchStep(window: Ring, source: Ring, from: nat, links: seq<int>, first: int, tried: seq<nat>, m: Match,
                   position: nat)
    requires Searched(window, source, from, links, first, tried, m) && m.length < GOOD_ENOUGH
    requires position == Next(links, first, tried) && position < |window.content| == |links|
    ensures var offset := Distance(window, position);
            var length := CommonRun(window, source, offset, from);
            Searched(window, source, from, links, first, tried + [position],
                     if length > m.length then Match(offset, length) else m)
    ensures Next(links, first, tried + [position]) == links[position]
  {
    hide Distance, CommonRun;
    var longer := tried + [position];
    assert longer[..|longer| - 1] == tried;
  }

  // ---------------------------------------------------------------- the same in terms of the history

  lemma {:induction false} RunIs(window: Ring, source: Ring, history: seq<byte>, offset: nat, from: nat)
    requires Remembers(window, history) && offset <= |window.content| && source.Valid() && from <= |source.content|
    ensures offset <= |history| && CommonRun(window, source, offset, from) == RunAt(history, Last(source, from), offset)
    decreases offset
  {
    hide Ring.Back, Last;
    if offset > 0 && from > 0 {
      RunIs(window, source, history, offset - 1, from - 1);
      assert RemembersAt(window, history, offset);
      LastRest(source, from);
    }
  }

  lemma LastRest(source: Ring, from: nat)
    requires source.Valid() && 0 < from <= |source.content|
    ensures Last(source, from)[0] == source.Back(from) && Last(source, from)[1..] == Last(source, from - 1)
  {
    hide Ring.Back;
  }

  lemma HashIs(source: Ring, position: nat)
    requires source.Valid() && position < |source.content| && Distance(source, position) >= HASH_BYTES
    ensures var s := Last(source, Distance(source, position))[..HASH_BYTES];
            forall k | 0 <= k < HASH_BYTES :: s[k] == source.Get(position + k)
  {
    hide Ring.Back, Ring.Get;
    forall k | 0 <= k < HASH_BYTES ensures Last(source, Distance(source, position))[k] == source.Get(position + k) {
      GetIsBack(source, position, k);
    }
  }

  lemma DistanceIs(window: Ring, history: seq<byte>, place: nat)
    requires window.Valid() && |window.content| == WINDOW && window.position == |history| % WINDOW && place < WINDOW
    ensures Distance(window, place) == BackFrom(history, place)
  {
    var q := |history| / WINDOW;
    Arithmetic.ModCongruent(window.position - place, q, WINDOW);
    Arithmetic.ModCongruent(window.position - place + WINDOW, -1, WINDOW);
  }

  // ---------------------------------------------------------------- the objects

  class HashChain {
    const heads: array<int>
    const prevs: array<int>

    /** Every position the chain can propose is a position in the window. */
    ghost predicate Valid()
      reads this, heads, prevs
    {
      && heads != prevs && heads.Length == 65536
      && (forall i | 0 <= i < heads.Length :: 0 <= heads[i] < prevs.Length)
      && (forall i | 0 <= i < prevs.Length :: 0 <= prevs[i] < prevs.Length)
    }

    constructor (length: nat)
      requires length > 0
      ensures Valid() && prevs.Length == length && fresh(heads) && fresh(prevs)
      ensures (forall i | 0 <= i < heads.Length :: heads[i] == 0) && forall i | 0 <= i < length :: prevs[i] == 0
    {
      heads := new int[65536](_ => 0);
      prevs := new int[length](_ => 0);
    }

    method Push(hash: uint16, position: nat)
      requires Valid() && position < prevs.Length
      modifies heads, prevs
      ensures Valid()
      ensures heads[..] == old(heads[..])[hash := position]
      ensures prevs[..] == old(prevs[..])[position := old(heads[hash])]
    {
      var previous := heads[hash];
      heads[hash] := position;
      prevs[position] := previous;
    }
  }

  /** The chains hold the places of all strings of four bytes, by their hashes, the latest first. */
  ghost predicate Indexes(heads: seq<int>, links: seq<int>, history: seq<byte>)
    requires |history| >= WINDOW
  {
    && |heads| == 65536 && (forall i | 0 <= i < |heads| :: heads[i] == HeadOf(history, i))
    && |links| == WINDOW && (forall i | 0 <= i < |links| :: links[i] == LinkOf(history, i))
  }

  class ByteStreamMatcher {
    const content: RingBuffer
    const chain: HashChain
    var rollingHash: uint16
    // every byte pushed, after a window of zeros
    ghost var history: seq<byte>

    ghost predicate Valid()
      reads this, content, chain, chain.heads, chain.prevs, content.content
    {
      && content.Valid() && content.content.Length == WINDOW
      && chain.Valid() && chain.prevs.Length == WINDOW
      && WINDOW <= |history| && Remembers(content.View(), history) && content.position == |history| % WINDOW
      && rollingHash == Hash(LastGram(history)) && Indexes(chain.heads[..], chain.prevs[..], history)
    }

    ghost function Repr(): set<object> {
      {this, content, content.content, chain, chain.heads, chain.prevs}
    }

    lemma Facts()
      requires Valid()
      ensures Remembers(content.View(), history) && content.content.Length == WINDOW && WINDOW <= |history|
    {
    }

    constructor ()
      ensures Valid() && fresh(Repr()) && content.View() == EmptyRing(WINDOW) && history == Repeat(0, WINDOW)
    {
      hide Remembers, RingBuffer.View;
      content := new RingBuffer(WINDOW);
      chain := new HashChain(WINDOW);
      rollingHash := 0;
      history := Repeat(0, WINDOW);
      EmptyRemembers(WINDOW);
      ZeroHash();
    }

    /** The window takes the byte, and the last four bytes are entered under their hash. */
    method Push(b: byte)
      requires Valid()
      modifies Repr()
      ensures Valid() && content.View() == old(content.View()).Push(b) && history == old(history) + [b]
      ensures var hash, place := Hash(LastGram(history)), PlaceOf(|history| - HASH_BYTES);
              && chain.heads[..] == old(chain.heads[..])[hash := place]
              && chain.prevs[..] == old(chain.prevs[..])[place := old(chain.heads[hash])]
    {
      hide Remembers, RingBuffer.View, Hash, HashStep, Indexes, HashChain.Valid, PlaceOf, LastGram;
      PushRemembers(content.View(), history, b);
      GramRolls(history, b);
      var position := content.position;
      content.Push(b);
      rollingHash := HashStep(rollingHash, b);
      // the hash is that of the string starting HASH_BYTES - 1 positions earlier
      var target := position - HASH_BYTES + 1;
      NextPlaces(history, b);
      chain.Push(rollingHash, if target < 0 then target + WINDOW else target);
      IndexMore(old(chain.heads[..]), old(chain.prevs[..]), history, b);
      history := history + [b];
    }

    lemma HashAtIs(source: RingBuffer, position: nat)
      requires source.Valid() && position < source.content.Length && Distance(source.View(), position) >= HASH_BYTES
      ensures HashAt(source, position) == Hash(Last(source.View(), Distance(source.View(), position))[..HASH_BYTES])
    {
      hide Distance, Last, HashStep, Hash;
      HashIs(source.View(), position);
      HashSteps(Last(source.View(), Distance(source.View(), position))[..HASH_BYTES]);
    }

    function HashAt(source: RingBuffer, position: int): uint16
      reads source, source.content
      requires source.Valid()
    {
      var first := HashStep(HashStep(0, source.Get(position)), source.Get(position + 1));
      HashStep(HashStep(first, source.Get(position + 2)), source.Get(position + 3))
    }

    /** The longest common run from the two positions on, up to the end of what either ring holds. */
    method CheckMatchStartingAt(position: nat, source: RingBuffer, sourcePosition: nat) returns (length: nat)
      requires Valid() && source.Valid() && position < WINDOW && sourcePosition < source.content.Length
      ensures var offset, from := Distance(content.View(), position), Distance(source.View(), sourcePosition);
              && length <= offset < WINDOW && length <= from
              && Matches(content.View(), source.View(), offset, from, length)
              && (length == offset || length == from || !MatchesAt(content.View(), source.View(), offset, from, length))
              && length == CommonRun(content.View(), source.View(), offset, from)
    {
      hide Matches, MatchesAt, CommonRun, Ring.Get, Ring.Back, HashChain.Valid;
      ghost var window, src := content.View(), source.View();
      var srcEnd := source.position;
      if srcEnd < sourcePosition {
        srcEnd := srcEnd + source.content.Length;
      }
      var distToSrcEnd := srcEnd - sourcePosition;
      var searchEnd := content.position;
      if searchEnd < position {
        searchEnd := searchEnd + content.content.Length;
      }
      var distToSearchEnd := searchEnd - position;
      var lengthLimit := if distToSearchEnd < distToSrcEnd then distToSearchEnd else distToSrcEnd;
      length := 0;
      CommonRunLongest(window, src, distToSearchEnd, distToSrcEnd);
      while length < lengthLimit
        invariant 0 <= length <= lengthLimit
        invariant length + CommonRun(window, src, distToSearchEnd - length, distToSrcEnd - length) ==
                  CommonRun(window, src, distToSearchEnd, distToSrcEnd)
      {
        RunStep(window, src, position, sourcePosition, length);
        if content.Get(position + length) != source.Get(sourcePosition + length) {
          return;
        }
        length := length + 1;
      }
      RunStep(window, src, position, sourcePosition, length);
    }

    /** The first longest match at the positions that the chain offers one after the other, until one is long
        enough or enough were tried. */
    method FindMatch(source: RingBuffer, sourcePosition: nat)
      returns (offset: nat, length: nat, ghost tried: seq<nat>)
      requires Valid() && source.Valid() && sourcePosition < source.content.Length
      ensures offset < WINDOW && length <= offset && length <= Distance(source.View(), sourcePosition)
      ensures Matches(content.View(), source.View(), offset, Distance(source.View(), sourcePosition), length)
      ensures 0 < |tried| <= MAX_HYPOTHESIS && (|tried| == MAX_HYPOTHESIS || length >= GOOD_ENOUGH)
      ensures Searched(content.View(), source.View(), Distance(source.View(), sourcePosition), chain.prevs[..],
                       chain.heads[HashAt(source, sourcePosition)], tried, Match(offset, length))
    {
      hide Matches, Distance, HashStep, CommonRun, HashAt, Searched, Next, Remembers, Hash, Indexes;
      ghost var window, src := content.View(), source.View();
      ghost var from := Distance(src, sourcePosition);
      var hash := HashAt(source, sourcePosition);
      var position := chain.heads[hash];
      ghost var links, first := chain.prevs[..], position;
      offset, length, tried := 0, 0, [];
      var i := 0;
      NoMatch(window, src, offset, from);
      SearchStart(window, src, from, links, first);
      while i < MAX_HYPOTHESIS
        invariant 0 <= position < WINDOW && |tried| == i <= MAX_HYPOTHESIS
        invariant offset < WINDOW && length <= offset && length <= from && length < GOOD_ENOUGH
        invariant Matches(window, src, offset, from, length)
        invariant Searched(window, src, from, links, first, tried, Match(offset, length))
        invariant position == Next(links, first, tried)
      {
        SearchStep(window, src, from, links, first, tried, Match(offset, length), position);
        var candidate := CheckMatchStartingAt(position, source, sourcePosition);
        var matchPosition := position;
        tried := tried + [position];
        position := chain.prevs[position];
        if candidate > length {
          length := candidate;
          var back := content.position - matchPosition;
          if back < 0 {
            back := back + WINDOW;
          }
          offset := back;
          assert offset == Distance(window, matchPosition) by {
            DistanceValue(window, matchPosition);
          }
          if length >= GOOD_ENOUGH {
            break;
          }
        }
        i := i + 1;
      }
    }

    /** What `FindMatch` has found is the match for the pending bytes after all the bytes pushed. */
    lemma FoundIs(source: RingBuffer, sourcePosition: nat, tried: seq<nat>, m: Match)
      requires Valid() && source.Valid() && sourcePosition < source.content.Length
      requires Distance(source.View(), sourcePosition) >= HASH_BYTES
      requires 0 < |tried| <= MAX_HYPOTHESIS && (|tried| == MAX_HYPOTHESIS || m.length >= GOOD_ENOUGH)
      requires Searched(content.View(), source.View(), Distance(source.View(), sourcePosition), chain.prevs[..],
                        chain.heads[HashAt(source, sourcePosition)], tried, m)
      ensures m == MatchFor(history, Last(source.View(), Distance(source.View(), sourcePosition)))
    {
      hide Distance, Searched, Last, MatchFor, Remembers, Hash, HashAt, Indexes;
      HashAtIs(source, sourcePosition);
      SearchIsMatch(content.View(), source.View(), history, sourcePosition, chain.heads[..], chain.prevs[..], tried, m);
    }
  }

  lemma ZeroHash()
    ensures Hash(LastGram(Repeat(0, WINDOW))) == 0
  {
    assert LastGram(Repeat(0 as byte, WINDOW)) == [0, 0, 0, 0];
  }

  lemma GramRolls(history: seq<byte>, b: byte)
    requires |history| >= WINDOW
    ensures HashStep(Hash(LastGram(history)), b) == Hash(LastGram(history + [b]))
  {
    HashRolls(LastGram(history), b);
    assert LastGram(history + [b]) == LastGram(history)[1..] + [b];
  }

  lemma NextPlaces(history: seq<byte>, b: byte)
    requires |history| >= WINDOW
    ensures var p, target := |history| % WINDOW, |history| % WINDOW - HASH_BYTES + 1;
            && (p + 1) % WINDOW == |history + [b]| % WINDOW
            && (if target < 0 then target + WINDOW else target) == PlaceOf(|history + [b]| - HASH_BYTES)
  {
    var q := |history| / WINDOW;
    var p := |history| % WINDOW;
    Arithmetic.ModCongruent(p + 1, q, WINDOW);
    Arithmetic.ModCongruent(p + 1 - HASH_BYTES, q, WINDOW);
    Arithmetic.ModCongruent(p + 1 - HASH_BYTES, 1, WINDOW);
  }

  /** What one more byte changes in the index. */
  lemma IndexMore(heads: seq<int>, links: seq<int>, history: seq<byte>, b: byte)
    requires |history| >= WINDOW && Indexes(heads, links, history)
    ensures var more := history + [b];
            var hash, place := Hash(LastGram(more)), PlaceOf(|more| - HASH_BYTES);
            hash < |heads| && place < |links| && Indexes(heads[hash := place], links[place := heads[hash]], more)
  {
    hide Hash, LastGram, PlaceOf;
    assert Most(history + [b]) == history;
  }

  /** What a search over the rings has found is what the search over the history has found. */
  lemma {:induction false} SearchedIs(window: Ring, source: Ring, history: seq<byte>, from: nat, heads: seq<int>,
      links: seq<int>, first: int, tried: seq<nat>, m: Match)
    requires Searched(window, source, from, links, first, tried, m) && |tried| <= MAX_HYPOTHESIS && 0 <= first < WINDOW
    requires Remembers(window, history) && |window.content| == WINDOW && window.position == |history| % WINDOW
    requires from <= |source.content| && |history| >= WINDOW && Indexes(heads, links, history)
    ensures 0 <= Next(links, first, tried) < WINDOW
    ensures var pending := Last(source, from);
            SearchFrom(history, pending, first, MAX_HYPOTHESIS, Match(0, 0)) ==
            SearchFrom(history, pending, Next(links, first, tried), MAX_HYPOTHESIS - |tried|, m)
    decreases |tried|
  {
    hide Remembers, Last, SearchFrom, HeadOf, LinkOf, CommonRun, RunAt, BackFrom;
    if tried != [] {
      var before, place := tried[..|tried| - 1], tried[|tried| - 1];
      var best := Best(window, source, from, before);
      BeforeSearched(window, source, from, links, first, tried, m);
      SearchedIs(window, source, history, from, heads, links, first, before, best);
      SearchOnce(history, Last(source, from), place, MAX_HYPOTHESIS - |before|, best);
      DistanceIs(window, history, place);
      RunIs(window, source, history, Distance(window, place), from);
    }
  }

  lemma SearchIsMatch(window: Ring, source: Ring, history: seq<byte>, position: nat, heads: seq<int>,
                      links: seq<int>, tried: seq<nat>, m: Match)
    requires source.Valid() && position < |source.content| && Distance(source, position) >= HASH_BYTES
    requires Remembers(window, history) && |window.content| == WINDOW && window.position == |history| % WINDOW
    requires |history| >= WINDOW && Indexes(heads, links, history) && 0 < |tried| <= MAX_HYPOTHESIS
    requires var from := Distance(source, position);
             Searched(window, source, from, links, heads[Hash(Last(source, from)[..HASH_BYTES])], tried, m)
    requires |tried| == MAX_HYPOTHESIS || m.length >= GOOD_ENOUGH
    ensures m == MatchFor(history, Last(source, Distance(source, position)))
  {
    hide Remembers, Last, LinkOf, Distance, Searched, Hash, Next, Better;
    var from := Distance(source, position);
    var first := heads[Hash(Last(source, from)[..HASH_BYTES])];
    SearchedIs(window, source, history, from, heads, links, first, tried, m);
  }

  lemma BeforeSearched(window: Ring, source: Ring, from: nat, links: seq<int>, first: int, tried: seq<nat>, m: Match)
    requires Searched(window, source, from, links, first, tried, m) && tried != []
    ensures var before := tried[..|tried| - 1];
            && (forall i | 0 <= i < |before| :: before[i] < |window.content|)
            && var best := Best(window, source, from, before);
               Searched(window, source, from, links, first, before, best) && best.length < GOOD_ENOUGH
  {
    hide Distance, CommonRun;
    var before := tried[..|tried| - 1];
    forall i | 0 <= i < |before| ensures before[i] == tried[i] {
    }
  }
}
