/** Which texts the tokenizer and the state machine accept together. */
module JsonTexts {
  import opened Common
  import opened JsonStates
  import opened JsonGrammar
  import opened JsonTokens
  import opened JsonTokenizer

  /** Tokens spelled in their canonical form, of which none continues another; the state machine has no part in it. */
  predicate Spelled(ts: seq<Token>)
    decreases |ts|
  {
    ts != [] ==>
      && Canonical(ts[0].Kind().IsCharacter(), ts[0]) && Separated(ts[0], TextOf(ts[1..])) && Spelled(ts[1..])
  }

  /** Only inside a string does the state machine accept a part of a string, and besides these only the delimiter. */
  lemma CanonicalWhereAccepted(stack: Stack, capacity: nat, t: Token)
    requires Sound(stack, capacity) && Step(stack, capacity, t.Kind()).ok
    ensures Canonical(Top(stack).IsString(), t) <==> Canonical(t.Kind().IsCharacter(), t)
  {
    hide NumberOk, CharacterOk, LowBytes, Merge, Sound;
    CharactersInStrings(stack, capacity, t.Kind());
  }

  lemma CharactersInStrings(stack: Stack, capacity: nat, kind: Kind)
    requires Sound(stack, capacity) && Step(stack, capacity, kind).ok
    ensures if Top(stack).IsString() then kind.IsCharacter() || kind.StringDelimiter? else !kind.IsCharacter()
  {
  }

  /** Wherever the state machine accepts the kinds, it has no say in how the tokens are spelled. */
  lemma {:induction false} SpelledExactly(stack: Stack, capacity: nat, ts: seq<Token>)
    requires Sound(stack, capacity) && Run(stack, capacity, KindsOf(ts)).Reached?
    ensures Spelled(ts) <==> TokensOk(stack, capacity, ts)
    decreases |ts|
  {
    hide Canonical, Separated, JsonTokens.Text, Step;
    if ts != [] {
      var kind := ts[0].Kind();
      assert KindsOf(ts)[0] == kind && KindsOf(ts)[1..] == KindsOf(ts[1..]);
      CanonicalWhereAccepted(stack, capacity, ts[0]);
      StepSound(stack, capacity, kind);
      SpelledExactly(Step(stack, capacity, kind).stack, capacity, ts[1..]);
    }
  }

  /** The text of a document: canonical, separated tokens whose kinds are derived by the grammar, within the nesting
      limit. */
  ghost predicate IsDocumentText(capacity: nat, s: seq<byte>)
    requires capacity >= 2
  {
    exists ts: seq<Token>, d: Document ::
      Spelled(ts) && TextOf(ts) == s && DocumentFits(d, capacity) && KindsOf(ts) == DocumentYield(d)
  }

  /** An input is consumed to its end, leaving the tokenizer done, if and only if it is the text of a document. */
  lemma DocumentTextsExactly(capacity: nat, s: seq<byte>)
    requires capacity >= 2
    ensures var r := ReadTokens(INITIAL_STACK, capacity, s);
            r.length == |s| && r.stack == [Root] <==> IsDocumentText(capacity, s)
  {
    hide ReadTokens, TokensOk, DocumentFits, DocumentYield, Run, Spelled;
    var r := ReadTokens(INITIAL_STACK, capacity, s);
    if r.length == |s| {
      ReadIsText(INITIAL_STACK, capacity, s);
      TokensRun(INITIAL_STACK, capacity, s);
      SpelledExactly(INITIAL_STACK, capacity, r.tokens);
      AcceptsExactly(capacity, KindsOf(r.tokens));
    }
    forall ts: seq<Token>, d: Document |
      Spelled(ts) && TextOf(ts) == s && DocumentFits(d, capacity) && KindsOf(ts) == DocumentYield(d)
      ensures r.length == |s| && r.stack == [Root]
    {
      AcceptsExactly(capacity, KindsOf(ts));
      SpelledExactly(INITIAL_STACK, capacity, ts);
      TextIsRead(INITIAL_STACK, capacity, s, ts);
    }
  }

  // ---------------------------------------------------------------- where reading stops

  /** The next token, if there is one, that stops the reading of an input where a run has got to this stack. */
  predicate Stops(stack: Stack, capacity: nat, rest: seq<byte>)
    requires Sound(stack, capacity) && rest != []
  {
    var next := Scan(Top(stack).IsString(), rest);
    next.Found? ==> !Step(stack, capacity, next.token.Kind()).ok
  }

  lemma {:induction false} RunStops(stack: Stack, capacity: nat, s: seq<byte>)
    requires Sound(stack, capacity)
    ensures var r := ReadTokens(stack, capacity, s);
            var run := Run(stack, capacity, KindsOf(r.tokens));
            run.Reached? && (r.length < |s| ==> Stops(run.stack, capacity, s[r.length..]))
    decreases |s|
  {
    hide Scan, JsonTokens.Text, Canonical, Step, Sound;
    if s != [] {
      var p, r := Parse(stack, capacity, s), ReadTokens(stack, capacity, s);
      if p.Parsed? {
        ParsePrintsBack(stack, capacity, s);
        StepSound(stack, capacity, p.token.Kind());
        RunStops(p.stack, capacity, s[p.length..]);
        var rest := ReadTokens(p.stack, capacity, s[p.length..]);
        assert KindsOf(r.tokens)[0] == p.token.Kind() && KindsOf(r.tokens)[1..] == KindsOf(rest.tokens);
        assert s[r.length..] == s[p.length..][rest.length..];
      } else {
        assert s[0..] == s;
      }
    }
  }

  /** The tokens read from an input begin a document within the nesting limit, and reading stops only where there is no
      further token or where no such document goes on with it. */
  lemma StopsExactly(capacity: nat, s: seq<byte>)
    requires capacity >= 2
    ensures var r := ReadTokens(INITIAL_STACK, capacity, s);
            var kinds := KindsOf(r.tokens);
            && BeginsDocument(capacity, kinds)
            && (r.length < |s| ==>
                  var next := Scan(InsideString(kinds), s[r.length..]);
                  next.Found? ==> !BeginsDocument(capacity, kinds + [next.token.Kind()]))
  {
    hide ReadTokens, Run, Scan, Step, Sound, BeginsDocument, InsideString;
    InitialSound(capacity);
    RunStops(INITIAL_STACK, capacity, s);
    var r := ReadTokens(INITIAL_STACK, capacity, s);
    var kinds := KindsOf(r.tokens);
    ReachesExactly(capacity, kinds);
    InsideExactly(capacity, kinds);
    if r.length < |s| {
      var next := Scan(InsideString(kinds), s[r.length..]);
      if next.Found? {
        var stack, kind := Run(INITIAL_STACK, capacity, kinds).stack, next.token.Kind();
        RunJoin(INITIAL_STACK, capacity, kinds, [kind]);
        OneStep(stack, capacity, kind);
        ReachesExactly(capacity, kinds + [kind]);
      }
    }
  }
}
