/** The search for a match as a function of all the bytes that went through the window (byte_stream_matcher.c,
    hash_chain.c): which positions the index offers, and which of them is taken. */
module MatchSearch {
  import opened Common

  const WINDOW: nat := 65536
  const MATCH_LIMIT: nat := 4096
  const MAX_HYPOTHESIS: nat := 20
  const GOOD_ENOUGH: nat := MATCH_LIMIT / 2
  const HASH_BYTES: nat := 4

  // ---------------------------------------------------------------- hashes

  type uint16 = x: int | 0 <= x < 65536

  /** One step of the 16-bit rolling hash, on words. */
  function StepBits(hash: bv16, b: byte): bv16 {
    (hash << 4) ^ (b as bv16)
  }

  function HashStep(hash: uint16, b: byte): uint16 {
    StepBits(hash as bv16, b) as int
  }

  function HashBits(s: seq<byte>): bv16
    requires |s| == HASH_BYTES
  {
    StepBits(StepBits(StepBits(StepBits(0, s[0]), s[1]), s[2]), s[3])
  }

  /** The hash of four bytes. */
  function Hash(s: seq<byte>): uint16
    requires |s| == HASH_BYTES
  {
    HashBits(s) as int
  }

  lemma BitsBack(x: bv16)
    ensures (x as int) as bv16 == x
  {
  }

  lemma HashSteps(s: seq<byte>)
    requires |s| == HASH_BYTES
    ensures Hash(s) == HashStep(HashStep(HashStep(HashStep(0, s[0]), s[1]), s[2]), s[3])
  {
    hide StepBits;
    BitsBack(0);
    BitsBack(StepBits(0, s[0]));
    BitsBack(StepBits(StepBits(0, s[0]), s[1]));
    BitsBack(StepBits(StepBits(StepBits(0, s[0]), s[1]), s[2]));
  }

  /** Four steps later nothing is left of a hash. */
  lemma ShiftedOut(a: bv16, b: bv16, c: bv16, d: bv16, e: bv16)
    ensures ((((((((((0 << 4) ^ a) << 4) ^ b) << 4) ^ c) << 4) ^ d) << 4) ^ e) ==
            ((((((((0 << 4) ^ b) << 4) ^ c) << 4) ^ d) << 4) ^ e)
  {
  }

  lemma BitsRoll(s: seq<byte>, b: byte)
    requires |s| == HASH_BYTES
    ensures StepBits(HashBits(s), b) == HashBits(s[1..] + [b])
  {
    ShiftedOut(s[0] as bv16, s[1] as bv16, s[2] as bv16, s[3] as bv16, b as bv16);
  }

  /** Rolling on forgets the oldest byte. */
  lemma HashRolls(s: seq<byte>, b: byte)
    requires |s| == HASH_BYTES
    ensures HashStep(Hash(s), b) == Hash(s[1..] + [b])
  {
    hide StepBits, HashBits;
    BitsBack(HashBits(s));
    BitsRoll(s, b);
  }

  // ---------------------------------------------------------------- the index

  function Most(history: seq<byte>): seq<byte>
    requires history != []
  {
    history[..|history| - 1]
  }

  /** The last four bytes. */
  function LastGram(history: seq<byte>): (s: seq<byte>)
    requires |history| >= HASH_BYTES
    ensures |s| == HASH_BYTES
  {
    history[|history| - HASH_BYTES..]
  }

  /** The place in the window of the byte at an index of the history, which begins with a window of zeros. */
  function PlaceOf(i: nat): (p: nat)
    ensures p < WINDOW
  {
    i % WINDOW
  }

  /** The place that the index offers first for a hash. */
  function HeadOf(history: seq<byte>, hash: int): (p: nat)
    requires |history| >= WINDOW
    ensures p < WINDOW
    decreases |history|
  {
    if |history| == WINDOW then 0
    else if Hash(LastGram(history)) == hash then PlaceOf(|history| - HASH_BYTES)
    else HeadOf(Most(history), hash)
  }

  /** The place that the index offers after a place. */
  function LinkOf(history: seq<byte>, place: int): (p: nat)
    requires |history| >= WINDOW
    ensures p < WINDOW
    decreases |history|
  {
    if |history| == WINDOW then 0
    else if PlaceOf(|history| - HASH_BYTES) == place then HeadOf(Most(history), Hash(LastGram(history)))
    else LinkOf(Most(history), place)
  }

  /** Whether four bytes with this hash, of which at least one has gone through the matcher, start at an index. */
  predicate GramAt(history: seq<byte>, i: nat, hash: int) {
    WINDOW - HASH_BYTES < i <= |history| - HASH_BYTES && Hash(history[i..i + HASH_BYTES]) == hash
  }

  /** The last four bytes with this hash. */
  ghost predicate LatestGram(history: seq<byte>, i: nat, hash: int) {
    GramAt(history, i, hash) && forall k: nat | GramAt(history, k, hash) :: k <= i
  }

  ghost predicate NoGram(history: seq<byte>, hash: int) {
    forall k: nat :: !GramAt(history, k, hash)
  }

  lemma SameSlice(history: seq<byte>, k: nat)
    requires k + HASH_BYTES < |history|
    ensures Most(history)[k..k + HASH_BYTES] == history[k..k + HASH_BYTES]
  {
  }

  /** One more byte makes one more string of four. */
  lemma GramsMore(history: seq<byte>, hash: int, k: nat)
    requires |history| > WINDOW
    ensures GramAt(history, k, hash) <==>
            if k == |history| - HASH_BYTES then Hash(LastGram(history)) == hash
            else GramAt(Most(history), k, hash)
  {
    hide Hash;
    if k + HASH_BYTES < |history| {
      SameSlice(history, k);
    } else if k == |history| - HASH_BYTES {
      assert history[k..k + HASH_BYTES] == LastGram(history);
    }
  }

  lemma LatestMore(history: seq<byte>, hash: int, i: nat)
    requires |history| > WINDOW
    ensures Hash(LastGram(history)) == hash ==> LatestGram(history, |history| - HASH_BYTES, hash)
    ensures Hash(LastGram(history)) != hash && LatestGram(Most(history), i, hash) ==> LatestGram(history, i, hash)
    ensures Hash(LastGram(history)) != hash && NoGram(Most(history), hash) ==> NoGram(history, hash)
  {
    hide Hash, LastGram;
    forall k: nat
      ensures GramAt(history, k, hash) <==>
              if k == |history| - HASH_BYTES then Hash(LastGram(history)) == hash
              else GramAt(Most(history), k, hash)
    {
      GramsMore(history, hash, k);
    }
  }

  /** The first place offered for a hash is that of the last four bytes with this hash, wherever they are; zero, if
      there are none. */
  lemma {:induction false} HeadIsLatest(history: seq<byte>, hash: int) returns (i: nat)
    requires |history| >= WINDOW
    ensures (LatestGram(history, i, hash) && HeadOf(history, hash) == PlaceOf(i))
            || (NoGram(history, hash) && HeadOf(history, hash) == 0)
    decreases |history|
  {
    hide LatestGram, NoGram, Hash, LastGram, PlaceOf;
    i := 0;
    if |history| == WINDOW {
      NothingIndexed(history, hash);
    } else {
      i := HeadIsLatest(Most(history), hash);
      LatestMore(history, hash, i);
      if Hash(LastGram(history)) == hash {
        i := |history| - HASH_BYTES;
      }
    }
  }

  lemma NothingIndexed(history: seq<byte>, hash: int)
    requires |history| == WINDOW
    ensures NoGram(history, hash)
  {
  }

  /** The place offered after that of four bytes, as long as no later ones have taken it, is that of the last four bytes
      before them with the same hash. */
  lemma {:induction false} LinkIsEarlier(history: seq<byte>, i: nat)
    requires WINDOW - HASH_BYTES < i <= |history| - HASH_BYTES && |history| - HASH_BYTES - i < WINDOW
    ensures LinkOf(history, PlaceOf(i)) ==
            HeadOf(history[..i + HASH_BYTES - 1], Hash(history[i..i + HASH_BYTES]))
    decreases |history|
  {
    hide Hash, HeadOf, PlaceOf;
    if i == |history| - HASH_BYTES {
      assert history[i..i + HASH_BYTES] == LastGram(history);
      assert history[..i + HASH_BYTES - 1] == Most(history);
    } else {
      var most := Most(history);
      PlacesDiffer(i, |history| - HASH_BYTES);
      LinkIsEarlier(most, i);
      assert most[i..i + HASH_BYTES] == history[i..i + HASH_BYTES];
      assert most[..i + HASH_BYTES - 1] == history[..i + HASH_BYTES - 1];
    }
  }

  lemma PlacesDiffer(i: nat, j: nat)
    requires i < j < i + WINDOW
    ensures PlaceOf(i) != PlaceOf(j)
  {
  }

  // ---------------------------------------------------------------- runs

  /** How far back a place is. */
  function BackFrom(history: seq<byte>, place: nat): (d: nat)
    ensures d < WINDOW
  {
    (|history| - place) % WINDOW
  }

  lemma BackFromPlace(history: seq<byte>, i: nat)
    requires i < |history| && |history| - i < WINDOW
    ensures BackFrom(history, PlaceOf(i)) == |history| - i
  {
    var q := i / WINDOW;
    assert |history| - PlaceOf(i) == (|history| - i) + q * WINDOW;
  }

  /** How many pending bytes repeat the history from so far back on; a run does not reach into itself. */
  function RunAt(history: seq<byte>, pending: seq<byte>, offset: nat): (n: nat)
    requires offset <= |history|
    ensures n <= offset && n <= |pending|
    decreases offset
  {
    if offset == 0 || pending == [] || history[|history| - offset] != pending[0] then 0
    else 1 + RunAt(history, pending[1..], offset - 1)
  }

  /** The run is as long as the bytes agree and there are bytes on both sides. */
  lemma {:induction false} RunIsLongest(history: seq<byte>, pending: seq<byte>, offset: nat, n: nat)
    requires offset <= |history|
    ensures n <= RunAt(history, pending, offset) <==>
            n <= offset && n <= |pending| && history[|history| - offset..][..n] == pending[..n]
    decreases offset
  {
    if n > 0 && offset > 0 && pending != [] {
      RunIsLongest(history, pending[1..], offset - 1, n - 1);
      if n <= offset && n <= |pending| {
        var from := history[|history| - offset..];
        assert from[1..] == history[|history| - (offset - 1)..];
        PrefixStep(from, pending, n);
      }
    }
  }

  lemma PrefixStep(a: seq<byte>, b: seq<byte>, n: nat)
    requires 0 < n <= |a| && n <= |b|
    ensures a[..n] == b[..n] <==> a[0] == b[0] && a[1..][..n - 1] == b[1..][..n - 1]
  {
    assert a[..n] == [a[0]] + a[1..][..n - 1] && b[..n] == [b[0]] + b[1..][..n - 1];
    if a[..n] == b[..n] {
      assert a[..n][0] == a[0] && b[..n][0] == b[0];
      assert a[..n][1..] == a[1..][..n - 1] && b[..n][1..] == b[1..][..n - 1];
    }
  }

  // ---------------------------------------------------------------- the search

  datatype Match = Match(offset: nat, length: nat)

  /** What is taken at a place: the longer one. */
  function Better(history: seq<byte>, pending: seq<byte>, place: nat, best: Match): (m: Match)
    requires |history| >= WINDOW
    ensures best.length <= best.offset < WINDOW && best.length <= |pending| ==>
              m.length <= m.offset < WINDOW && m.length <= |pending|
  {
    var offset := BackFrom(history, place);
    var length := RunAt(history, pending, offset);
    if length > best.length then Match(offset, length) else best
  }

  /** The places are tried one after the other, until a match is long enough or enough of them were tried. */
  function SearchFrom(history: seq<byte>, pending: seq<byte>, place: nat, left: nat, best: Match): (m: Match)
    requires |history| >= WINDOW
    ensures best.length <= best.offset < WINDOW && best.length <= |pending| ==>
              m.length <= m.offset < WINDOW && m.length <= |pending|
    decreases left
  {
    if left == 0 || best.length >= GOOD_ENOUGH then best
    else SearchFrom(history, pending, LinkOf(history, place), left - 1, Better(history, pending, place, best))
  }

  /** One round of the search. */
  lemma SearchOnce(history: seq<byte>, pending: seq<byte>, place: nat, left: nat, best: Match)
    requires |history| >= WINDOW && left > 0 && best.length < GOOD_ENOUGH
    ensures var offset := BackFrom(history, place);
            var length := RunAt(history, pending, offset);
            var better, next := if length > best.length then Match(offset, length) else best, LinkOf(history, place);
            && SearchFrom(history, pending, place, left, best) == SearchFrom(history, pending, next, left - 1, better)
            && (left == 1 || better.length >= GOOD_ENOUGH ==>
                  SearchFrom(history, pending, place, left, best) == better)
  {
  }

  function MatchFor(history: seq<byte>, pending: seq<byte>): (m: Match)
    requires |history| >= WINDOW && |pending| >= HASH_BYTES
    ensures m.length <= m.offset < WINDOW && m.length <= |pending|
  {
    SearchFrom(history, pending, HeadOf(history, Hash(pending[..HASH_BYTES])), MAX_HYPOTHESIS, Match(0, 0))
  }

  /** The places that a search tries from one on. */
  predicate Chain(history: seq<byte>, first: nat, places: seq<nat>)
    requires |history| >= WINDOW
    decreases |places|
  {
    places != [] ==> places[0] == first && Chain(history, LinkOf(history, first), places[1..])
  }

  /** The run at one of the places. */
  function RunOf(history: seq<byte>, pending: seq<byte>, place: nat): nat
    requires |history| >= WINDOW
  {
    RunAt(history, pending, BackFrom(history, place))
  }

  /** All the places tried: each of them but the last gives a run that is not long enough. */
  predicate TriedAll(history: seq<byte>, pending: seq<byte>, places: seq<nat>, left: nat)
    requires |history| >= WINDOW
  {
    && |places| <= left
    && (forall i | 0 <= i < |places| - 1 :: RunOf(history, pending, places[i]) < GOOD_ENOUGH)
    && (|places| < left ==> places != [] && RunOf(history, pending, places[|places| - 1]) >= GOOD_ENOUGH)
  }

  /** The match is the longest run at all the places and, of those that are as long, the first; or what was found
      before, if none is longer. */
  predicate Takes(history: seq<byte>, pending: seq<byte>, places: seq<nat>, taken: nat, best: Match, m: Match)
    requires |history| >= WINDOW
  {
    && best.length <= m.length && (m.length == best.length ==> m == best)
    && (forall i | 0 <= i < |places| :: RunOf(history, pending, places[i]) <= m.length)
    && (m.length > best.length ==>
          && taken < |places| && m == Match(BackFrom(history, places[taken]), RunOf(history, pending, places[taken]))
          && forall j | 0 <= j < taken :: RunOf(history, pending, places[j]) < m.length)
  }

  lemma TakesOneMore(history: seq<byte>, pending: seq<byte>, place: nat, rest: seq<nat>, taken: nat, best: Match,
                     m: Match)
    requires |history| >= WINDOW
    requires Takes(history, pending, rest, taken, Better(history, pending, place, best), m)
    ensures var better := Better(history, pending, place, best);
            Takes(history, pending, [place] + rest, if m.length > better.length then taken + 1 else 0, best, m)
  {
    hide RunAt, BackFrom;
    var places := [place] + rest;
    forall i | 0 <= i < |places| ensures RunOf(history, pending, places[i]) <= m.length {
      if i > 0 {
        assert places[i] == rest[i - 1];
      }
    }
    var better := Better(history, pending, place, best);
    if m.length > better.length {
      assert places[taken + 1] == rest[taken];
      forall j | 0 <= j < taken + 1 ensures RunOf(history, pending, places[j]) < m.length {
        if j > 0 {
          assert places[j] == rest[j - 1];
        }
      }
    }
  }

  /** The search takes the longest run at all the places it tries and, of those that are as long, the first. */
  lemma {:induction false} SearchTakesLongest(history: seq<byte>, pending: seq<byte>, place: nat, left: nat,
      best: Match)
    returns (places: seq<nat>, taken: nat)
    requires |history| >= WINDOW && best.length < GOOD_ENOUGH
    ensures Chain(history, place, places) && TriedAll(history, pending, places, left)
    ensures Takes(history, pending, places, taken, best, SearchFrom(history, pending, place, left, best))
    decreases left
  {
    hide LinkOf, RunAt, BackFrom, Takes;
    taken := 0;
    if left == 0 {
      places := [];
      NothingTried(history, pending, best);
    } else {
      var better, next := Better(history, pending, place, best), LinkOf(history, place);
      if better.length >= GOOD_ENOUGH {
        places := [place];
        assert SearchFrom(history, pending, next, left - 1, better) == better;
        NothingTried(history, pending, better);
        TakesOneMore(history, pending, place, [], 0, best, better);
        assert [place] + [] == [place];
      } else {
        var rest, later := SearchTakesLongest(history, pending, next, left - 1, better);
        var m := SearchFrom(history, pending, next, left - 1, better);
        places := [place] + rest;
        TakesOneMore(history, pending, place, rest, later, best, m);
        taken := if m.length > better.length then later + 1 else 0;
        OneTriedMore(history, pending, place, rest, left, better, best);
      }
    }
  }

  lemma NothingTried(history: seq<byte>, pending: seq<byte>, best: Match)
    requires |history| >= WINDOW
    ensures Takes(history, pending, [], 0, best, best)
  {
  }

  lemma OneTriedMore(history: seq<byte>, pending: seq<byte>, place: nat, rest: seq<nat>, left: nat, better: Match,
                     best: Match)
    requires |history| >= WINDOW && left > 0 && TriedAll(history, pending, rest, left - 1)
    requires better == Better(history, pending, place, best) && better.length < GOOD_ENOUGH
    requires Chain(history, LinkOf(history, place), rest)
    ensures TriedAll(history, pending, [place] + rest, left) && Chain(history, place, [place] + rest)
  {
    hide RunAt, BackFrom, LinkOf;
    var places := [place] + rest;
    assert places[1..] == rest;
    forall i | 0 <= i < |places| - 1 ensures RunOf(history, pending, places[i]) < GOOD_ENOUGH {
      if i > 0 {
        assert places[i] == rest[i - 1];
      }
    }
    if |places| < left {
      assert places[|places| - 1] == rest[|rest| - 1];
    }
  }

  /** If the last four bytes in the window with the hash of the pending ones begin a repetition of the pending bytes,
      then the match is at least as long as this. */
  lemma RepetitionFound(history: seq<byte>, pending: seq<byte>, i: nat)
    requires |history| >= WINDOW && |pending| >= HASH_BYTES && i < |history| && |history| - i < WINDOW
    requires LatestGram(history, i, Hash(pending[..HASH_BYTES]))
    ensures MatchFor(history, pending).length >= RunAt(history, pending, |history| - i)
  {
    hide HeadOf, LinkOf, RunAt, BackFrom, Hash, PlaceOf, SearchFrom;
    var hash := Hash(pending[..HASH_BYTES]);
    var latest := HeadIsLatest(history, hash);
    assert latest == i by {
      assert GramAt(history, i, hash);
      assert LatestGram(history, latest, hash);
    }
    BackFromPlace(history, i);
    var first := HeadOf(history, hash);
    var places, taken := SearchTakesLongest(history, pending, first, MAX_HYPOTHESIS, Match(0, 0));
    assert places != [] && places[0] == first;
    assert RunOf(history, pending, places[0]) <= MatchFor(history, pending).length;
  }
}
