/** The JSON grammar of RFC 8259, section 2, over token kinds, and the proof that the token machine
    accepts exactly the documents of the grammar whose nesting fits its stack. */
module JsonGrammar {
  import opened Common
  import opened JsonStates

  // ---------------------------------------------------------------- derivation trees

  /** `ws` counts the whitespace tokens in front of the part's first token. */
  datatype Tree =
    | Scalar(ws: nat, kind: Kind)
    | Text(ws: nat, characters: seq<Kind>)
    | Array(ws: nat, elements: Elements)
    | Object(ws: nat, members: Members)

  datatype Elements = NoElements(ws: nat) | FirstElement(value: Tree, more: MoreElements)
  datatype MoreElements = ArrayEnd(ws: nat) | NextElement(ws: nat, value: Tree, more: MoreElements)

  datatype Members = NoMembers(ws: nat) | FirstMember(ws: nat, member: Member, more: MoreMembers)
  datatype MoreMembers = ObjectEnd(ws: nat) | NextMember(wsComma: nat, ws: nat, member: Member, more: MoreMembers)

  /** A member after its opening quote. */
  datatype Member = Member(key: seq<Kind>, ws: nat, value: Tree)

  datatype Document = Document(bom: bool, value: Tree, trailing: nat)

  predicate AllCharacters(kinds: seq<Kind>) {
    forall i | 0 <= i < |kinds| :: kinds[i].IsCharacter()
  }

  predicate TreeOk(v: Tree) {
    match v
    case Scalar(_, kind) => kind.IsScalar()
    case Text(_, characters) => AllCharacters(characters)
    case Array(_, elements) => ElementsOk(elements)
    case Object(_, members) => MembersOk(members)
  }

  predicate ElementsOk(e: Elements) {
    e.FirstElement? ==> TreeOk(e.value) && MoreElementsOk(e.more)
  }

  predicate MoreElementsOk(e: MoreElements) {
    e.NextElement? ==> TreeOk(e.value) && MoreElementsOk(e.more)
  }

  predicate MembersOk(m: Members) {
    m.FirstMember? ==> MemberOk(m.member) && MoreMembersOk(m.more)
  }

  predicate MoreMembersOk(m: MoreMembers) {
    m.NextMember? ==> MemberOk(m.member) && MoreMembersOk(m.more)
  }

  predicate MemberOk(m: Member) {
    AllCharacters(m.key) && TreeOk(m.value)
  }

  // ---------------------------------------------------------------- yield

  function Ws(n: nat): seq<Kind> {
    Repeat(Whitespace, n)
  }

  function Yield(v: Tree): seq<Kind> {
    match v
    case Scalar(ws, kind) => Ws(ws) + [kind]
    case Text(ws, characters) => Ws(ws) + ([StringDelimiter] + (characters + [StringDelimiter]))
    case Array(ws, elements) => Ws(ws) + ([ArrayOpen] + ElementsYield(elements))
    case Object(ws, members) => Ws(ws) + ([ObjectOpen] + MembersYield(members))
  }

  function ElementsYield(e: Elements): seq<Kind> {
    match e
    case NoElements(ws) => Ws(ws) + [ArrayClose]
    case FirstElement(value, more) => Yield(value) + MoreElementsYield(more)
  }

  function MoreElementsYield(e: MoreElements): seq<Kind> {
    match e
    case ArrayEnd(ws) => Ws(ws) + [ArrayClose]
    case NextElement(ws, value, more) => Ws(ws) + ([ValueSeparator] + (Yield(value) + MoreElementsYield(more)))
  }

  function MembersYield(m: Members): seq<Kind> {
    match m
    case NoMembers(ws) => Ws(ws) + [ObjectClose]
    case FirstMember(ws, member, more) => Ws(ws) + ([StringDelimiter] + (MemberYield(member) + MoreMembersYield(more)))
  }

  function MoreMembersYield(m: MoreMembers): seq<Kind> {
    match m
    case ObjectEnd(ws) => Ws(ws) + [ObjectClose]
    case NextMember(wsComma, ws, member, more) =>
      Ws(wsComma) + ([ValueSeparator] + (Ws(ws) + ([StringDelimiter] + (MemberYield(member) + MoreMembersYield(more)))))
  }

  function MemberYield(m: Member): seq<Kind> {
    m.key + ([StringDelimiter] + (Ws(m.ws) + ([KvSeparator] + Yield(m.value))))
  }

  function DocumentYield(d: Document): seq<Kind> {
    (if d.bom then [Bom] else []) + (Yield(d.value) + Ws(d.trailing))
  }

  // ---------------------------------------------------------------- nesting

  function Max(a: nat, b: nat): nat {
    if a < b then b else a
  }

  /** Stack cells a value needs above the cell it belongs to. */
  function Need(v: Tree): nat {
    match v
    case Scalar(_, _) => 0
    case Text(_, _) => 1
    case Array(_, elements) => 1 + ElementsNeed(elements)
    case Object(_, members) => 1 + MembersNeed(members)
  }

  function ElementsNeed(e: Elements): nat {
    match e
    case NoElements(_) => 0
    case FirstElement(value, more) => Max(Need(value), MoreElementsNeed(more))
  }

  /** After a comma a cell waits for the value, even if it is a scalar. */
  function MoreElementsNeed(e: MoreElements): nat {
    match e
    case ArrayEnd(_) => 0
    case NextElement(_, value, more) => Max(Max(1, Need(value)), MoreElementsNeed(more))
  }

  function MembersNeed(m: Members): nat {
    match m
    case NoMembers(_) => 0
    case FirstMember(_, member, more) => Max(Max(1, Need(member.value)), MoreMembersNeed(more))
  }

  function MoreMembersNeed(m: MoreMembers): nat {
    match m
    case ObjectEnd(_) => 0
    case NextMember(_, _, member, more) => Max(Max(1, Need(member.value)), MoreMembersNeed(more))
  }

  // ---------------------------------------------------------------- running

  lemma Advance(stack: Stack, capacity: nat, kind: Kind, rest: seq<Kind>, next: Stack)
    requires Sound(stack, capacity) && Step(stack, capacity, kind) == Outcome(true, next)
    ensures Sound(next, capacity) && Run(stack, capacity, [kind] + rest) == Run(next, capacity, rest)
  {
    StepSound(stack, capacity, kind);
    assert ([kind] + rest)[1..] == rest;
  }

  /** States in which whitespace is skipped without a trace. */
  predicate SkipsWhitespace(state: State) {
    !state.IsString() && !state.Start?
  }

  lemma WhitespaceStays(stack: Stack, capacity: nat)
    requires Sound(stack, capacity) && SkipsWhitespace(Top(stack))
    ensures Step(stack, capacity, Whitespace) == Outcome(true, stack)
  {
  }

  lemma {:induction false} SkipWhitespace(stack: Stack, capacity: nat, n: nat, rest: seq<Kind>)
    requires Sound(stack, capacity) && SkipsWhitespace(Top(stack))
    ensures Run(stack, capacity, Ws(n) + rest) == Run(stack, capacity, rest)
  {
    if n == 0 {
      assert Ws(n) + rest == rest;
    } else {
      WhitespaceStays(stack, capacity);
      Advance(stack, capacity, Whitespace, Ws(n - 1) + rest, stack);
      SkipWhitespace(stack, capacity, n - 1, rest);
      assert Ws(n) + rest == [Whitespace] + (Ws(n - 1) + rest);
    }
  }

  lemma {:induction false} SkipCharacters(stack: Stack, capacity: nat, characters: seq<Kind>, rest: seq<Kind>)
    requires Sound(stack, capacity) && Top(stack).IsString() && AllCharacters(characters)
    ensures Run(stack, capacity, characters + rest) == Run(stack, capacity, rest)
    decreases |characters|
  {
    if characters == [] {
      assert characters + rest == rest;
    } else {
      Advance(stack, capacity, characters[0], characters[1..] + rest, stack);
      SkipCharacters(stack, capacity, characters[1..], rest);
      assert characters + rest == [characters[0]] + (characters[1..] + rest);
    }
  }

  /** Whitespace, then one token. */
  lemma AdvanceOver(stack: Stack, capacity: nat, ws: nat, kind: Kind, rest: seq<Kind>, next: Stack)
    requires Sound(stack, capacity) && SkipsWhitespace(Top(stack))
    requires Step(stack, capacity, kind) == Outcome(true, next)
    ensures Sound(next, capacity) && Run(stack, capacity, Ws(ws) + ([kind] + rest)) == Run(next, capacity, rest)
  {
    SkipWhitespace(stack, capacity, ws, [kind] + rest);
    Advance(stack, capacity, kind, rest, next);
  }

  // ---------------------------------------------------------------- completeness

  /** Some cell in which a value can start. */
  predicate Expects(stack: Stack, capacity: nat) {
    Sound(stack, capacity) && (Top(stack).Value? || Top(stack).ArrayStart?)
  }

  lemma BaseSound(stack: Stack, capacity: nat)
    requires Expects(stack, capacity)
    ensures stack != [] && ValueBase(stack) != []
    ensures Sound(ValueBase(stack), capacity) && Sound(AfterValue(ValueBase(stack)), capacity)
    ensures Top(stack).Value? ==> |ValueBase(stack)| < capacity
  {
    StepSound(stack, capacity, Number);
  }

  lemma CellOn(b: Stack, capacity: nat, state: State)
    requires Sound(b, capacity) && |b| < capacity && !state.Root? && !state.ObjectContinue?
    ensures Sound(b + [state], capacity) && Top(b + [state]) == state && Below(b + [state]) == b
    ensures b != [] && Push(b, capacity, state) == Outcome(true, b + [state])
  {
    PushSound(b, capacity, state);
  }

  lemma ContinueOn(b: Stack, capacity: nat)
    requires Sound(b, capacity) && |b| + 1 < capacity
    ensures b != [] && Sound(b + [ObjectContinue], capacity) && Top(b + [ObjectContinue]) == ObjectContinue
            && Below(b + [ObjectContinue]) == b
  {
  }

  lemma {:induction false} ValueRuns(stack: Stack, capacity: nat, v: Tree, rest: seq<Kind>)
    requires Expects(stack, capacity) && TreeOk(v) && Need(v) <= capacity - |ValueBase(stack)|
    ensures Sound(AfterValue(ValueBase(stack)), capacity)
    ensures Run(stack, capacity, Yield(v) + rest) == Run(AfterValue(ValueBase(stack)), capacity, rest)
    decreases v, 1
  {
    hide Sound, Run, Ws, ElementsYield, MembersYield, AllCharacters, ValueBase, AfterValue, Push, Top, Below;
    BaseSound(stack, capacity);
    var b := ValueBase(stack);
    match v {
      case Scalar(ws, kind) =>
        assert Yield(v) + rest == Ws(ws) + ([kind] + rest);
        AdvanceOver(stack, capacity, ws, kind, rest, AfterValue(b));
      case Text(ws, characters) =>
        CellOn(b, capacity, InString);
        var tail := characters + ([StringDelimiter] + rest);
        assert Yield(v) + rest == Ws(ws) + ([StringDelimiter] + tail);
        AdvanceOver(stack, capacity, ws, StringDelimiter, tail, b + [InString]);
        SkipCharacters(b + [InString], capacity, characters, [StringDelimiter] + rest);
        Advance(b + [InString], capacity, StringDelimiter, rest, AfterValue(b));
      case Array(ws, elements) =>
        CellOn(b, capacity, ArrayStart);
        assert Yield(v) + rest == Ws(ws) + ([ArrayOpen] + (ElementsYield(elements) + rest));
        AdvanceOver(stack, capacity, ws, ArrayOpen, ElementsYield(elements) + rest, b + [ArrayStart]);
        ElementsRun(b, capacity, elements, rest);
      case Object(ws, members) =>
        CellOn(b, capacity, ObjectStart);
        assert Yield(v) + rest == Ws(ws) + ([ObjectOpen] + (MembersYield(members) + rest));
        AdvanceOver(stack, capacity, ws, ObjectOpen, MembersYield(members) + rest, b + [ObjectStart]);
        MembersRun(b, capacity, members, rest);
    }
  }

  lemma {:induction false} ElementsRun(b: Stack, capacity: nat, e: Elements, rest: seq<Kind>)
    requires Sound(b, capacity) && Sound(AfterValue(b), capacity) && |b| < capacity && ElementsOk(e)
    requires ElementsNeed(e) <= capacity - |b| - 1
    ensures Sound(b + [ArrayStart], capacity)
    ensures Run(b + [ArrayStart], capacity, ElementsYield(e) + rest) == Run(AfterValue(b), capacity, rest)
    decreases e, 0
  {
    hide Sound, Run;
    CellOn(b, capacity, ArrayStart);
    var stack := b + [ArrayStart];
    match e {
      case NoElements(ws) =>
        assert ElementsYield(e) + rest == Ws(ws) + ([ArrayClose] + rest);
        AdvanceOver(stack, capacity, ws, ArrayClose, rest, AfterValue(b));
      case FirstElement(value, more) =>
        assert ElementsYield(e) + rest == Yield(value) + (MoreElementsYield(more) + rest);
        ValueRuns(stack, capacity, value, MoreElementsYield(more) + rest);
        MoreElementsRun(b, capacity, more, rest);
    }
  }

  lemma {:induction false} MoreElementsRun(b: Stack, capacity: nat, e: MoreElements, rest: seq<Kind>)
    requires Sound(b, capacity) && Sound(AfterValue(b), capacity) && |b| < capacity && MoreElementsOk(e)
    requires MoreElementsNeed(e) <= capacity - |b| - 1
    ensures Sound(b + [ArrayContinue], capacity)
    ensures Run(b + [ArrayContinue], capacity, MoreElementsYield(e) + rest) == Run(AfterValue(b), capacity, rest)
    decreases e, 0
  {
    hide Sound, Run;
    CellOn(b, capacity, ArrayContinue);
    var stack := b + [ArrayContinue];
    match e {
      case ArrayEnd(ws) =>
        assert MoreElementsYield(e) + rest == Ws(ws) + ([ArrayClose] + rest);
        AdvanceOver(stack, capacity, ws, ArrayClose, rest, AfterValue(b));
      case NextElement(ws, value, more) =>
        CellOn(stack, capacity, Value);
        var after := MoreElementsYield(more) + rest;
        assert MoreElementsYield(e) + rest == Ws(ws) + ([ValueSeparator] + (Yield(value) + after));
        AdvanceOver(stack, capacity, ws, ValueSeparator, Yield(value) + after, stack + [Value]);
        ValueRuns(stack + [Value], capacity, value, after);
        MoreElementsRun(b, capacity, more, rest);
    }
  }

  lemma {:induction false} MembersRun(b: Stack, capacity: nat, m: Members, rest: seq<Kind>)
    requires Sound(b, capacity) && Sound(AfterValue(b), capacity) && |b| < capacity && MembersOk(m)
    requires MembersNeed(m) <= capacity - |b| - 1
    ensures Sound(b + [ObjectStart], capacity)
    ensures Run(b + [ObjectStart], capacity, MembersYield(m) + rest) == Run(AfterValue(b), capacity, rest)
    decreases m, 0
  {
    hide Sound, Run;
    CellOn(b, capacity, ObjectStart);
    var stack := b + [ObjectStart];
    match m {
      case NoMembers(ws) =>
        assert MembersYield(m) + rest == Ws(ws) + ([ObjectClose] + rest);
        AdvanceOver(stack, capacity, ws, ObjectClose, rest, AfterValue(b));
      case FirstMember(ws, member, more) =>
        CellOn(stack, capacity, ObjectKey);
        var after := MoreMembersYield(more) + rest;
        assert MembersYield(m) + rest == Ws(ws) + ([StringDelimiter] + (MemberYield(member) + after));
        AdvanceOver(stack, capacity, ws, StringDelimiter, MemberYield(member) + after, stack + [ObjectKey]);
        MemberRuns(stack, capacity, member, after);
        MoreMembersRun(b, capacity, more, rest);
    }
  }

  lemma {:induction false} MoreMembersRun(b: Stack, capacity: nat, m: MoreMembers, rest: seq<Kind>)
    requires Sound(b, capacity) && Sound(AfterValue(b), capacity) && |b| + 1 < capacity && MoreMembersOk(m)
    requires MoreMembersNeed(m) <= capacity - |b| - 1
    ensures Sound(b + [ObjectContinue], capacity)
    ensures Run(b + [ObjectContinue], capacity, MoreMembersYield(m) + rest) == Run(AfterValue(b), capacity, rest)
    decreases m, 0
  {
    hide Sound, Run;
    ContinueOn(b, capacity);
    var stack := b + [ObjectContinue];
    match m {
      case ObjectEnd(ws) =>
        assert MoreMembersYield(m) + rest == Ws(ws) + ([ObjectClose] + rest);
        AdvanceOver(stack, capacity, ws, ObjectClose, rest, AfterValue(b));
      case NextMember(wsComma, ws, member, more) =>
        CellOn(stack, capacity, ObjectKeyStart);
        CellOn(stack, capacity, ObjectKey);
        var after := MoreMembersYield(more) + rest;
        var key := Ws(ws) + ([StringDelimiter] + (MemberYield(member) + after));
        assert MoreMembersYield(m) + rest == Ws(wsComma) + ([ValueSeparator] + key);
        AdvanceOver(stack, capacity, wsComma, ValueSeparator, key, stack + [ObjectKeyStart]);
        AdvanceOver(stack + [ObjectKeyStart], capacity, ws, StringDelimiter, MemberYield(member) + after,
          stack + [ObjectKey]);
        MemberRuns(stack, capacity, member, after);
        MoreMembersRun(b, capacity, more, rest);
    }
  }

  /** A member, from inside its key on, in an object cell that lies on top. */
  lemma {:induction false} MemberRuns(holder: Stack, capacity: nat, m: Member, rest: seq<Kind>)
    requires Sound(holder, capacity) && |holder| < capacity && MemberOk(m) && Need(m.value) <= capacity - |holder|
    requires Top(holder).ObjectStart? || Top(holder).ObjectContinue?
    ensures Sound(holder + [ObjectKey], capacity) && Sound(AfterValue(holder), capacity)
    ensures Run(holder + [ObjectKey], capacity, MemberYield(m) + rest) == Run(AfterValue(holder), capacity, rest)
    decreases m, 0
  {
    hide Sound, Run;
    CellOn(holder, capacity, ObjectKey);
    CellOn(holder, capacity, ObjectKvSeparator);
    CellOn(holder, capacity, Value);
    var value := Yield(m.value) + rest;
    var colon := Ws(m.ws) + ([KvSeparator] + value);
    assert MemberYield(m) + rest == m.key + ([StringDelimiter] + colon);
    SkipCharacters(holder + [ObjectKey], capacity, m.key, [StringDelimiter] + colon);
    Advance(holder + [ObjectKey], capacity, StringDelimiter, colon, holder + [ObjectKvSeparator]);
    AdvanceOver(holder + [ObjectKvSeparator], capacity, m.ws, KvSeparator, value, holder + [Value]);
    ValueRuns(holder + [Value], capacity, m.value, rest);
  }

  // ---------------------------------------------------------------- soundness

  function OneMoreWs(v: Tree): (r: Tree)
    ensures Yield(r) == [Whitespace] + Yield(v) && Need(r) == Need(v) && (TreeOk(v) ==> TreeOk(r))
  {
    assert Ws(v.ws + 1) == [Whitespace] + Ws(v.ws);
    match v
    case Scalar(ws, kind) => Scalar(ws + 1, kind)
    case Text(ws, characters) => Text(ws + 1, characters)
    case Array(ws, elements) => Array(ws + 1, elements)
    case Object(ws, members) => Object(ws + 1, members)
  }

  /** The first step of a run that does not end where it starts. */
  lemma FirstStep(stack: Stack, capacity: nat, kinds: seq<Kind>, final: Stack)
    requires Sound(stack, capacity) && Run(stack, capacity, kinds) == Reached(final) && final != stack
    ensures kinds != [] && kinds == [kinds[0]] + kinds[1..]
    ensures var next := Step(stack, capacity, kinds[0]);
            next.ok && Sound(next.stack, capacity) && Run(next.stack, capacity, kinds[1..]) == Reached(final)
  {
    StepSound(stack, capacity, kinds[0]);
  }

  /** Whitespace is skipped up to a token of another kind. */
  lemma {:induction false} SkipSound(stack: Stack, capacity: nat, kinds: seq<Kind>, final: Stack)
    returns (ws: nat, rest: seq<Kind>)
    requires Sound(stack, capacity) && SkipsWhitespace(Top(stack))
    requires Run(stack, capacity, kinds) == Reached(final) && final != stack
    ensures kinds == Ws(ws) + rest && rest != [] && rest[0] != Whitespace && |rest| <= |kinds|
    ensures Run(stack, capacity, rest) == Reached(final)
    decreases |kinds|
  {
    hide Sound;
    FirstStep(stack, capacity, kinds, final);
    if kinds[0].Whitespace? {
      WhitespaceStays(stack, capacity);
      var n;
      n, rest := SkipSound(stack, capacity, kinds[1..], final);
      ws := n + 1;
      assert Ws(n + 1) + rest == [Whitespace] + (Ws(n) + rest);
    } else {
      ws, rest := 0, kinds;
      assert Ws(0) + rest == rest;
    }
  }

  lemma {:induction false} CharactersSound(stack: Stack, capacity: nat, kinds: seq<Kind>, final: Stack)
    returns (characters: seq<Kind>, rest: seq<Kind>)
    requires Sound(stack, capacity) && Top(stack).IsString()
    requires Run(stack, capacity, kinds) == Reached(final) && final != stack
    ensures AllCharacters(characters) && kinds == characters + ([StringDelimiter] + rest)
    ensures var next := Step(stack, capacity, StringDelimiter).stack;
            Sound(next, capacity) && Run(next, capacity, rest) == Reached(final)
    decreases |kinds|
  {
    FirstStep(stack, capacity, kinds, final);
    if kinds[0].StringDelimiter? {
      characters, rest := [], kinds[1..];
      assert kinds == [] + ([StringDelimiter] + rest);
    } else {
      var more;
      more, rest := CharactersSound(stack, capacity, kinds[1..], final);
      characters := [kinds[0]] + more;
      assert kinds == characters + ([StringDelimiter] + rest);
    }
  }

  lemma {:induction false} ValueSound(stack: Stack, capacity: nat, kinds: seq<Kind>, final: Stack)
    returns (v: Tree, rest: seq<Kind>)
    requires Expects(stack, capacity) && Run(stack, capacity, kinds) == Reached(final) && |final| < |stack|
    requires Top(stack).ArrayStart? ==> kinds != [] && !kinds[0].ArrayClose? && !kinds[0].Whitespace?
    ensures TreeOk(v) && kinds == Yield(v) + rest && |rest| < |kinds|
    ensures ValueBase(stack) != [] && Need(v) + |ValueBase(stack)| <= capacity
    ensures var next := AfterValue(ValueBase(stack));
            Sound(next, capacity) && Run(next, capacity, rest) == Reached(final)
    decreases |kinds|, 1
  {
    hide Sound, Run, Step, Ws, AfterValue;
    BaseSound(stack, capacity);
    FirstStep(stack, capacity, kinds, final);
    var k, tail := kinds[0], kinds[1..];
    StartsHere(stack, capacity, k);
    if k.Whitespace? {
      var inner;
      inner, rest := ValueSound(stack, capacity, tail, final);
      v := OneMoreWs(inner);
      assert [k] + (Yield(inner) + rest) == ([k] + Yield(inner)) + rest;
    } else {
      v, rest := OpenedSound(stack, capacity, k, tail, final);
    }
  }

  /** The value whose first token has just been taken. */
  lemma {:induction false} OpenedSound(stack: Stack, capacity: nat, k: Kind, tail: seq<Kind>, final: Stack)
    returns (v: Tree, rest: seq<Kind>)
    requires Expects(stack, capacity) && |stack| >= 2 && !k.Whitespace? && |final| < |stack|
    requires var next := TryStartValue(stack, capacity, k);
             next.ok && Sound(next.stack, capacity) && Run(next.stack, capacity, tail) == Reached(final)
    ensures TreeOk(v) && [k] + tail == Yield(v) + rest && |rest| <= |tail|
    ensures ValueBase(stack) != [] && Need(v) + |ValueBase(stack)| <= capacity
    ensures var next := AfterValue(ValueBase(stack));
            Sound(next, capacity) && Run(next, capacity, rest) == Reached(final)
    decreases |tail| + 1, 0
  {
    hide Sound, Run, Step, Ws, AfterValue, ElementsYield, MembersYield, AllCharacters;
    BaseSound(stack, capacity);
    var b := ValueBase(stack);
    if k.IsScalar() {
      v, rest := Scalar(0, k), tail;
      ScalarNeed(b, capacity);
      OpenJoin(k, [], rest);
    } else if k.StringDelimiter? {
      CellOn(b, capacity, InString);
      var characters;
      characters, rest := CharactersSound(b + [InString], capacity, tail, final);
      TextEnds(b, capacity);
      v := Text(0, characters);
      OpenJoin(k, characters + [StringDelimiter], rest);
      assert characters + ([StringDelimiter] + rest) == (characters + [StringDelimiter]) + rest;
    } else if k.ArrayOpen? {
      var elements;
      elements, rest := ElementsSound(b, capacity, tail, final);
      v := Array(0, elements);
      OpenJoin(k, ElementsYield(elements), rest);
    } else {
      var members;
      members, rest := MembersSound(b, capacity, tail, final);
      v := Object(0, members);
      OpenJoin(k, MembersYield(members), rest);
    }
  }

  lemma OpenJoin(kind: Kind, body: seq<Kind>, rest: seq<Kind>)
    ensures [kind] + (body + rest) == (Ws(0) + ([kind] + body)) + rest
    ensures [kind] + [] == [kind] && [] + rest == rest
  {
  }

  lemma TextEnds(b: Stack, capacity: nat)
    requires Sound(b + [InString], capacity) && b != [] && Below(b + [InString]) == b
    ensures Step(b + [InString], capacity, StringDelimiter) == Outcome(true, AfterValue(b))
  {
  }

  lemma StartsHere(stack: Stack, capacity: nat, kind: Kind)
    requires Expects(stack, capacity) && Step(stack, capacity, kind).ok
             && (kind.ArrayClose? ==> !Top(stack).ArrayStart?)
    ensures |stack| >= 2 && Step(stack, capacity, kind) == TryStartValue(stack, capacity, kind)
  {
  }

  lemma ScalarNeed(b: Stack, capacity: nat)
    requires Sound(b, capacity)
    ensures |b| <= capacity
  {
  }

  lemma {:induction false} ElementsSound(b: Stack, capacity: nat, kinds: seq<Kind>, final: Stack)
    returns (e: Elements, rest: seq<Kind>)
    requires Sound(b, capacity) && |b| < capacity && Sound(b + [ArrayStart], capacity) && Sound(AfterValue(b), capacity)
    requires Run(b + [ArrayStart], capacity, kinds) == Reached(final) && |final| <= |b|
    ensures ElementsOk(e) && kinds == ElementsYield(e) + rest && |rest| < |kinds|
    ensures ElementsNeed(e) <= capacity - |b| - 1
    ensures Run(AfterValue(b), capacity, rest) == Reached(final)
    decreases |kinds|, 2
  {
    hide Sound, Run;
    CellOn(b, capacity, ArrayStart);
    var stack := b + [ArrayStart];
    var ws, tail := SkipSound(stack, capacity, kinds, final);
    FirstStep(stack, capacity, tail, final);
    if tail[0].ArrayClose? {
      e, rest := NoElements(ws), tail[1..];
      assert kinds == ElementsYield(e) + rest;
    } else {
      var value, more;
      value, rest := ValueSound(stack, capacity, tail, final);
      var after := rest;
      more, rest := MoreElementsSound(b, capacity, after, final);
      e := FirstElement(MoreWs(value, ws), more);
      Rejoin(Ws(ws), Yield(value), MoreElementsYield(more), rest);
    }
  }

  lemma Rejoin(a: seq<Kind>, b: seq<Kind>, c: seq<Kind>, d: seq<Kind>)
    ensures a + (b + (c + d)) == ((a + b) + c) + d
  {
  }

  function MoreWs(v: Tree, n: nat): (r: Tree)
    ensures Yield(r) == Ws(n) + Yield(v) && Need(r) == Need(v) && (TreeOk(v) ==> TreeOk(r))
  {
    if n == 0 then
      assert Ws(0) + Yield(v) == Yield(v);
      v
    else
      assert Ws(n) + Yield(v) == [Whitespace] + (Ws(n - 1) + Yield(v));
      OneMoreWs(MoreWs(v, n - 1))
  }

  lemma {:induction false} MoreElementsSound(b: Stack, capacity: nat, kinds: seq<Kind>, final: Stack)
    returns (e: MoreElements, rest: seq<Kind>)
    requires Sound(b, capacity) && |b| < capacity && Sound(b + [ArrayContinue], capacity)
             && Sound(AfterValue(b), capacity)
    requires Run(b + [ArrayContinue], capacity, kinds) == Reached(final) && |final| <= |b|
    ensures MoreElementsOk(e) && kinds == MoreElementsYield(e) + rest && |rest| < |kinds|
    ensures MoreElementsNeed(e) <= capacity - |b| - 1
    ensures Run(AfterValue(b), capacity, rest) == Reached(final)
    decreases |kinds|, 0
  {
    hide Sound, Run;
    CellOn(b, capacity, ArrayContinue);
    var stack := b + [ArrayContinue];
    var ws, tail := SkipSound(stack, capacity, kinds, final);
    FirstStep(stack, capacity, tail, final);
    if tail[0].ArrayClose? {
      e, rest := ArrayEnd(ws), tail[1..];
      assert kinds == MoreElementsYield(e) + rest;
    } else {
      CellOn(stack, capacity, Value);
      var value, more;
      value, rest := ValueSound(stack + [Value], capacity, tail[1..], final);
      var after := rest;
      more, rest := MoreElementsSound(b, capacity, after, final);
      e := NextElement(ws, value, more);
      assert kinds == MoreElementsYield(e) + rest;
    }
  }

  lemma {:induction false} MembersSound(b: Stack, capacity: nat, kinds: seq<Kind>, final: Stack)
    returns (m: Members, rest: seq<Kind>)
    requires Sound(b, capacity) && |b| < capacity && Sound(b + [ObjectStart], capacity)
             && Sound(AfterValue(b), capacity)
    requires Run(b + [ObjectStart], capacity, kinds) == Reached(final) && |final| <= |b|
    ensures MembersOk(m) && kinds == MembersYield(m) + rest && |rest| < |kinds|
    ensures MembersNeed(m) <= capacity - |b| - 1
    ensures Run(AfterValue(b), capacity, rest) == Reached(final)
    decreases |kinds|, 0
  {
    hide Sound, Run;
    CellOn(b, capacity, ObjectStart);
    var stack := b + [ObjectStart];
    var ws, tail := SkipSound(stack, capacity, kinds, final);
    FirstStep(stack, capacity, tail, final);
    if tail[0].ObjectClose? {
      m, rest := NoMembers(ws), tail[1..];
      assert kinds == MembersYield(m) + rest;
    } else {
      var member, more;
      member, rest := MemberSound(stack, capacity, tail[1..], final);
      var after := rest;
      more, rest := MoreMembersSound(b, capacity, after, final);
      m := FirstMember(ws, member, more);
      assert kinds == MembersYield(m) + rest;
    }
  }

  lemma {:induction false} MoreMembersSound(b: Stack, capacity: nat, kinds: seq<Kind>, final: Stack)
    returns (m: MoreMembers, rest: seq<Kind>)
    requires Sound(b, capacity) && |b| + 1 < capacity && Sound(b + [ObjectContinue], capacity)
             && Sound(AfterValue(b), capacity)
    requires Run(b + [ObjectContinue], capacity, kinds) == Reached(final) && |final| <= |b|
    ensures MoreMembersOk(m) && kinds == MoreMembersYield(m) + rest && |rest| < |kinds|
    ensures MoreMembersNeed(m) <= capacity - |b| - 1
    ensures Run(AfterValue(b), capacity, rest) == Reached(final)
    decreases |kinds|, 0
  {
    hide Sound, Run;
    ContinueOn(b, capacity);
    var stack := b + [ObjectContinue];
    var wsComma, tail := SkipSound(stack, capacity, kinds, final);
    FirstStep(stack, capacity, tail, final);
    if tail[0].ObjectClose? {
      m, rest := ObjectEnd(wsComma), tail[1..];
      assert kinds == MoreMembersYield(m) + rest;
    } else {
      CellOn(stack, capacity, ObjectKeyStart);
      CellOn(stack, capacity, ObjectKey);
      var ws, key := SkipSound(stack + [ObjectKeyStart], capacity, tail[1..], final);
      FirstStep(stack + [ObjectKeyStart], capacity, key, final);
      var member, more;
      member, rest := MemberSound(stack, capacity, key[1..], final);
      var after := rest;
      more, rest := MoreMembersSound(b, capacity, after, final);
      m := NextMember(wsComma, ws, member, more);
      MemberJoin(wsComma, ws, MemberYield(member), MoreMembersYield(more), rest);
    }
  }

  lemma MemberJoin(wsComma: nat, ws: nat, member: seq<Kind>, more: seq<Kind>, rest: seq<Kind>)
    ensures Ws(wsComma) + ([ValueSeparator] + (Ws(ws) + ([StringDelimiter] + (member + (more + rest))))) ==
            Ws(wsComma) + ([ValueSeparator] + (Ws(ws) + ([StringDelimiter] + (member + more)))) + rest
  {
  }

  lemma {:induction false} MemberSound(holder: Stack, capacity: nat, kinds: seq<Kind>, final: Stack)
    returns (m: Member, rest: seq<Kind>)
    requires Sound(holder, capacity) && |holder| < capacity && Sound(holder + [ObjectKey], capacity)
    requires Top(holder).ObjectStart? || Top(holder).ObjectContinue?
    requires Run(holder + [ObjectKey], capacity, kinds) == Reached(final) && |final| < |holder|
    ensures MemberOk(m) && kinds == MemberYield(m) + rest && |rest| < |kinds|
    ensures Need(m.value) + |holder| <= capacity
    ensures Sound(AfterValue(holder), capacity) && Run(AfterValue(holder), capacity, rest) == Reached(final)
    decreases |kinds|, 0
  {
    hide Sound, Run, Ws, Yield;
    CellOn(holder, capacity, ObjectKey);
    CellOn(holder, capacity, ObjectKvSeparator);
    CellOn(holder, capacity, Value);
    var characters, colon := CharactersSound(holder + [ObjectKey], capacity, kinds, final);
    var ws, tail := SkipSound(holder + [ObjectKvSeparator], capacity, colon, final);
    FirstStep(holder + [ObjectKvSeparator], capacity, tail, final);
    var value;
    value, rest := ValueSound(holder + [Value], capacity, tail[1..], final);
    m := Member(characters, ws, value);
    KeyJoin(characters, Ws(ws), Yield(value), rest);
  }

  lemma KeyJoin(key: seq<Kind>, ws: seq<Kind>, value: seq<Kind>, rest: seq<Kind>)
    ensures key + ([StringDelimiter] + (ws + ([KvSeparator] + (value + rest)))) ==
            (key + ([StringDelimiter] + (ws + ([KvSeparator] + value)))) + rest
  {
  }

  // ---------------------------------------------------------------- documents

  predicate DocumentFits(d: Document, capacity: nat) {
    TreeOk(d.value) && 1 + Need(d.value) <= capacity
  }

  lemma {:induction false} OnlyWhitespaceAtRoot(capacity: nat, kinds: seq<Kind>) returns (n: nat)
    requires capacity >= 2 && Run([Root], capacity, kinds) == Reached([Root])
    ensures kinds == Ws(n)
    decreases |kinds|
  {
    if kinds == [] {
      n := 0;
    } else {
      var m := OnlyWhitespaceAtRoot(capacity, kinds[1..]);
      n := m + 1;
      assert kinds == [Whitespace] + Ws(m);
    }
  }

  const WAITING: Stack := [Root, Value]

  lemma Waiting()
    ensures ValueBase(WAITING) == [Root] && AfterValue([Root]) == [Root] && ReplaceTop(INITIAL_STACK, Value) == WAITING
  {
    assert Below(WAITING) == [Root];
  }

  /** From a waiting value on, ROOT is reached exactly by a fitting value and trailing whitespace. */
  lemma WaitingRuns(capacity: nat, v: Tree, trailing: nat)
    requires capacity >= 2 && TreeOk(v) && 1 + Need(v) <= capacity
    ensures Run(WAITING, capacity, Yield(v) + Ws(trailing)) == Reached([Root])
  {
    Waiting();
    ValueRuns(WAITING, capacity, v, Ws(trailing));
    SkipWhitespace([Root], capacity, trailing, []);
    assert Ws(trailing) + [] == Ws(trailing);
  }

  lemma WaitingSound(capacity: nat, kinds: seq<Kind>) returns (v: Tree, trailing: nat)
    requires capacity >= 2 && Run(WAITING, capacity, kinds) == Reached([Root])
    ensures TreeOk(v) && 1 + Need(v) <= capacity && kinds == Yield(v) + Ws(trailing)
  {
    Waiting();
    var rest;
    v, rest := ValueSound(WAITING, capacity, kinds, [Root]);
    trailing := OnlyWhitespaceAtRoot(capacity, rest);
  }

  lemma NoBomFirst(v: Tree, rest: seq<Kind>)
    requires TreeOk(v)
    ensures var kinds := Yield(v) + rest; kinds != [] && !kinds[0].Bom?
  {
    if v.ws == 0 {
      assert Ws(0) == [];
    } else {
      assert Ws(v.ws)[0] == Whitespace;
    }
  }

  lemma DocumentAccepted(capacity: nat, d: Document)
    requires capacity >= 2 && DocumentFits(d, capacity)
    ensures Accepts(capacity, DocumentYield(d))
  {
    hide Run;
    Waiting();
    var body := Yield(d.value) + Ws(d.trailing);
    WaitingRuns(capacity, d.value, d.trailing);
    if d.bom {
      Advance(INITIAL_STACK, capacity, Bom, body, WAITING);
    } else {
      assert DocumentYield(d) == body;
      NoBomFirst(d.value, Ws(d.trailing));
      StartRuns(capacity, body);
    }
  }

  lemma StartRuns(capacity: nat, kinds: seq<Kind>)
    requires capacity >= 2 && kinds != [] && !kinds[0].Bom?
    ensures Run(INITIAL_STACK, capacity, kinds) == Run(WAITING, capacity, kinds)
  {
    Waiting();
    StartLikeValueExactly(INITIAL_STACK, capacity, kinds[0]);
  }

  lemma AcceptedIsDocument(capacity: nat, kinds: seq<Kind>) returns (d: Document)
    requires capacity >= 2 && Accepts(capacity, kinds)
    ensures DocumentFits(d, capacity) && kinds == DocumentYield(d)
  {
    hide Run;
    Waiting();
    FirstStep(INITIAL_STACK, capacity, kinds, [Root]);
    if kinds[0].Bom? {
      var v, n := WaitingSound(capacity, kinds[1..]);
      d := Document(true, v, n);
    } else {
      StartRuns(capacity, kinds);
      var v, n := WaitingSound(capacity, kinds);
      d := Document(false, v, n);
    }
  }

  /** The token machine accepts exactly the documents of the grammar whose nesting fits its stack. */
  lemma AcceptsExactly(capacity: nat, kinds: seq<Kind>)
    requires capacity >= 2
    ensures Accepts(capacity, kinds) <==> exists d :: DocumentFits(d, capacity) && kinds == DocumentYield(d)
  {
    if Accepts(capacity, kinds) {
      var d := AcceptedIsDocument(capacity, kinds);
    }
    forall d | DocumentFits(d, capacity) && kinds == DocumentYield(d) ensures Accepts(capacity, kinds) {
      DocumentAccepted(capacity, d);
    }
  }

  // ---------------------------------------------------------------- beginnings of documents

  /** Whether some document within the nesting limit begins with these kinds. */
  ghost predicate BeginsDocument(capacity: nat, kinds: seq<Kind>) {
    exists d: Document, more: seq<Kind> :: DocumentFits(d, capacity) && kinds + more == DocumentYield(d)
  }

  lemma {:induction false} RunJoin(stack: Stack, capacity: nat, a: seq<Kind>, b: seq<Kind>)
    requires Sound(stack, capacity)
    ensures var r := Run(stack, capacity, a);
            Run(stack, capacity, a + b) == if r.Reached? then Run(r.stack, capacity, b) else Rejected
    decreases |a|
  {
    hide Step;
    if a == [] {
      assert a + b == b;
    } else {
      StepSound(stack, capacity, a[0]);
      var next := Step(stack, capacity, a[0]);
      assert (a + b)[0] == a[0] && (a + b)[1..] == a[1..] + b;
      if next.ok {
        RunJoin(next.stack, capacity, a[1..], b);
      }
    }
  }

  /** A token that brings what is open nearer to its end. */
  function Closing(state: State): Kind {
    match state
    case Start => Number
    case Value => Number
    case InString => StringDelimiter
    case ObjectKey => StringDelimiter
    case ObjectKeyStart => StringDelimiter
    case ObjectKvSeparator => KvSeparator
    case ArrayStart => ArrayClose
    case ArrayContinue => ArrayClose
    case ObjectStart => ObjectClose
    case ObjectContinue => ObjectClose
    case Root => Whitespace
  }

  /** How many more tokens a member needs before its value. */
  function Ahead(state: State): nat {
    match state
    case ObjectKeyStart => 3
    case ObjectKey => 2
    case ObjectKvSeparator => 1
    case _ => 0
  }

  function AheadOf(stack: Stack): nat {
    if stack == [] then 0 else Ahead(Top(stack))
  }

  lemma ClosingStep(stack: Stack, capacity: nat)
    requires Sound(stack, capacity) && |stack| >= 2
    ensures var r := Step(stack, capacity, Closing(Top(stack)));
            && r.ok && r.stack != []
            && (|r.stack| < |stack| || (|r.stack| == |stack| && AheadOf(r.stack) < AheadOf(stack)))
  {
    RootAlone(stack, capacity);
  }

  /** From every sound stack ROOT can be reached, with no more room than there is. */
  lemma {:induction false} Completion(stack: Stack, capacity: nat) returns (more: seq<Kind>)
    requires Sound(stack, capacity)
    ensures Run(stack, capacity, more) == Reached([Root])
    decreases |stack|, AheadOf(stack)
  {
    hide Step, Run;
    RootAlone(stack, capacity);
    if |stack| == 1 {
      more := [];
      NothingRun(stack, capacity);
    } else {
      var kind := Closing(Top(stack));
      ClosingStep(stack, capacity);
      StepSound(stack, capacity, kind);
      var next := Step(stack, capacity, kind).stack;
      var rest := Completion(next, capacity);
      Advance(stack, capacity, kind, rest, next);
      more := [kind] + rest;
    }
  }

  lemma NothingRun(stack: Stack, capacity: nat)
    requires Sound(stack, capacity)
    ensures Run(stack, capacity, []) == Reached(stack) && (|stack| == 1 ==> stack == [Root])
  {
  }

  /** The token machine accepts tokens one after the other exactly as long as some document within the nesting limit
      begins with them. */
  lemma ReachesExactly(capacity: nat, kinds: seq<Kind>)
    requires capacity >= 2
    ensures Run(INITIAL_STACK, capacity, kinds).Reached? <==> BeginsDocument(capacity, kinds)
  {
    hide Run, DocumentFits, DocumentYield, Sound;
    InitialSound(capacity);
    var r := Run(INITIAL_STACK, capacity, kinds);
    if r.Reached? {
      var more := Completion(r.stack, capacity);
      RunJoin(INITIAL_STACK, capacity, kinds, more);
      var d := AcceptedIsDocument(capacity, kinds + more);
    }
    forall d: Document, more: seq<Kind> | DocumentFits(d, capacity) && kinds + more == DocumentYield(d)
      ensures r.Reached?
    {
      DocumentAccepted(capacity, d);
      RunJoin(INITIAL_STACK, capacity, kinds, more);
    }
  }

  lemma InitialSound(capacity: nat)
    requires capacity >= 2
    ensures Sound(INITIAL_STACK, capacity)
  {
  }

  // ---------------------------------------------------------------- what reachable stacks look like

  /** A cell of a container that is not finished, or ROOT. */
  predicate IsOpen(state: State) {
    state in {Root, ArrayStart, ArrayContinue, ObjectStart, ObjectContinue}
  }

  /** A cell as it is right after a value. */
  predicate IsSettled(state: State) {
    state in {Root, ArrayContinue, ObjectContinue}
  }

  /** What every reachable stack satisfies: only the top cell can be anything else. */
  predicate OpenBelow(stack: Stack) {
    forall i | 0 <= i < |stack| - 1 :: IsOpen(stack[i])
  }

  /** Each token keeps that, a quote takes the machine into a string or out of it, and a number finishes a value. */
  lemma StepOpenBelow(stack: Stack, capacity: nat, kind: Kind)
    requires Sound(stack, capacity) && OpenBelow(stack) && Step(stack, capacity, kind).ok
    ensures var next := Step(stack, capacity, kind).stack;
            && next != [] && OpenBelow(next)
            && Top(next).IsString() == (Top(stack).IsString() != kind.StringDelimiter?)
            && (kind.Number? ==> IsSettled(Top(next)))
  {
    hide OpenBelow, AfterValue, ValueBase, Push, ReplaceTop, Below;
    RootAlone(stack, capacity);
    if |stack| >= 2 {
      PopOpenBelow(stack);
      ReplaceOpenBelow(stack);
      if IsOpen(Top(stack)) {
        PushOpenBelow(stack, capacity);
      }
      if Top(stack).Value? || Top(stack).ArrayStart? {
        if TryStartValue(stack, capacity, kind).ok {
          ValueOpenBelow(stack, capacity, kind);
        }
      }
      if Top(stack).Start? {
        StartOpenBelow(stack, capacity, kind);
      }
    }
  }

  lemma PopOpenBelow(stack: Stack)
    requires |stack| >= 2 && OpenBelow(stack)
    ensures OpenBelow(Below(stack)) && IsOpen(Top(Below(stack)))
    ensures var popped := AfterValue(Below(stack)); popped != [] && OpenBelow(popped) && IsSettled(Top(popped))
  {
    var b := Below(stack);
    assert forall i | 0 <= i < |b| :: b[i] == stack[i];
    assert IsOpen(stack[|b| - 1]);
    AfterOpenBelow(b);
  }

  lemma ReplaceOpenBelow(stack: Stack)
    requires stack != [] && OpenBelow(stack)
    ensures forall state: State ::
              var next := ReplaceTop(stack, state); next != [] && OpenBelow(next) && Top(next) == state
  {
    hide IsOpen;
  }

  lemma PushOpenBelow(stack: Stack, capacity: nat)
    requires stack != [] && OpenBelow(stack) && IsOpen(Top(stack))
    ensures forall state: State | Push(stack, capacity, state).ok ::
              var next := Push(stack, capacity, state).stack; next != [] && OpenBelow(next) && Top(next) == state
  {
    hide IsOpen;
  }

  lemma ValueOpenBelow(stack: Stack, capacity: nat, kind: Kind)
    requires |stack| >= 2 && OpenBelow(stack) && (Top(stack).Value? || Top(stack).ArrayStart?)
    requires TryStartValue(stack, capacity, kind).ok
    ensures var next := TryStartValue(stack, capacity, kind).stack;
            && next != [] && OpenBelow(next) && Top(next).IsString() == kind.StringDelimiter?
            && (kind.Number? ==> IsSettled(Top(next)))
  {
    hide OpenBelow, AfterValue, Push;
    var base := ValueBase(stack);
    PopOpenBelow(stack);
    PushOpenBelow(base, capacity);
    AfterOpenBelow(base);
  }

  lemma AfterOpenBelow(stack: Stack)
    requires stack != [] && OpenBelow(stack) && IsOpen(Top(stack))
    ensures var after := AfterValue(stack); after != [] && OpenBelow(after) && IsSettled(Top(after))
  {
  }

  lemma StartOpenBelow(stack: Stack, capacity: nat, kind: Kind)
    requires Rooted(stack) && |stack| >= 2 && OpenBelow(stack) && Top(stack).Start?
    requires Step(stack, capacity, kind).ok
    ensures var next := Step(stack, capacity, kind).stack;
            && next != [] && OpenBelow(next) && Top(next).IsString() == kind.StringDelimiter?
            && (kind.Number? ==> IsSettled(Top(next)))
  {
    hide TryStartValue;
    var replaced := ReplaceTop(stack, Value);
    assert OpenBelow(replaced) && Top(replaced) == Value && |replaced| == |stack|;
    if !kind.Bom? {
      ValueOpenBelow(replaced, capacity, kind);
    }
  }

  /** Behind a finished value only whitespace, a comma or the end of its container is accepted. */
  lemma AfterSettled(stack: Stack, capacity: nat, kind: Kind)
    requires Sound(stack, capacity) && IsSettled(Top(stack)) && Step(stack, capacity, kind).ok
    ensures kind in {Whitespace, ValueSeparator, ArrayClose, ObjectClose}
  {
  }

  /** Whether the quotes among some tokens have opened a string and not closed it. */
  predicate InsideString(kinds: seq<Kind>)
    decreases |kinds|
  {
    kinds != [] && InsideString(kinds[..|kinds| - 1]) != kinds[|kinds| - 1].StringDelimiter?
  }

  /** In every run the machine is in a string exactly when the quotes say so. */
  lemma {:induction false} InsideExactly(capacity: nat, kinds: seq<Kind>)
    requires capacity >= 2 && Run(INITIAL_STACK, capacity, kinds).Reached?
    ensures var stack := Run(INITIAL_STACK, capacity, kinds).stack;
            stack != [] && OpenBelow(stack) && Top(stack).IsString() == InsideString(kinds)
    decreases |kinds|
  {
    hide Run, Step;
    InitialSound(capacity);
    if kinds == [] {
      NothingRun(INITIAL_STACK, capacity);
    } else {
      var most, last := kinds[..|kinds| - 1], kinds[|kinds| - 1];
      assert kinds == most + [last];
      RunJoin(INITIAL_STACK, capacity, most, [last]);
      InsideExactly(capacity, most);
      var stack := Run(INITIAL_STACK, capacity, most).stack;
      OneStep(stack, capacity, last);
      StepOpenBelow(stack, capacity, last);
    }
  }

  lemma OneStep(stack: Stack, capacity: nat, kind: Kind)
    requires Sound(stack, capacity)
    ensures var next := Step(stack, capacity, kind);
            Run(stack, capacity, [kind]) == if next.ok then Reached(next.stack) else Rejected
  {
    StepSound(stack, capacity, kind);
    assert [kind][1..] == [];
  }

  // ---------------------------------------------------------------- the nesting limit

  /** Arrays opened one inside the other fill the stack cell by cell. */
  lemma {:induction false} OpensRun(capacity: nat, n: nat)
    requires capacity >= 2 && n > 0
    ensures Sound(INITIAL_STACK, capacity)
    ensures Run(INITIAL_STACK, capacity, Repeat(ArrayOpen, n)) ==
            if n < capacity then Reached([Root] + Repeat(ArrayStart, n)) else Rejected
  {
    hide Run, Sound, Step;
    InitialSound(capacity);
    var opens := Repeat(ArrayOpen, n);
    if n == 1 {
      Waiting();
      OneStep(INITIAL_STACK, capacity, ArrayOpen);
      FirstOpen(capacity);
      assert opens == [ArrayOpen];
    } else {
      OpensRun(capacity, n - 1);
      assert opens == Repeat(ArrayOpen, n - 1) + [ArrayOpen];
      RunJoin(INITIAL_STACK, capacity, Repeat(ArrayOpen, n - 1), [ArrayOpen]);
      if n - 1 < capacity {
        var stack := [Root] + Repeat(ArrayStart, n - 1);
        OneStep(stack, capacity, ArrayOpen);
        NextOpen(stack, capacity);
        assert stack + [ArrayStart] == [Root] + Repeat(ArrayStart, n);
      }
    }
  }

  lemma FirstOpen(capacity: nat)
    requires capacity >= 2
    ensures Step(INITIAL_STACK, capacity, ArrayOpen) == Outcome(true, [Root] + Repeat(ArrayStart, 1))
  {
    Waiting();
  }

  lemma NextOpen(stack: Stack, capacity: nat)
    requires Sound(stack, capacity) && Top(stack).ArrayStart?
    ensures Rooted(stack)
    ensures Step(stack, capacity, ArrayOpen) ==
            if |stack| < capacity then Outcome(true, stack + [ArrayStart]) else Outcome(false, stack)
  {
  }

  /** Arrays can be nested 511 deep, and no deeper. */
  lemma DeepestNesting(n: nat)
    ensures BeginsDocument(MAX_STACK, Repeat(ArrayOpen, n)) <==> n <= 511
  {
    hide Run, BeginsDocument;
    ReachesExactly(MAX_STACK, Repeat(ArrayOpen, n));
    InitialSound(MAX_STACK);
    if n > 0 {
      OpensRun(MAX_STACK, n);
    } else {
      NothingRun(INITIAL_STACK, MAX_STACK);
      assert Repeat(ArrayOpen, 0) == [];
    }
  }
}
