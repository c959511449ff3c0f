/**
 The quiz-generation endpoint: the ordered checks on the request body that
 answer 400, the API-key check that answers 500, the cleanup of the model's
 reply (markdown fences removed, then trimmed) before it is parsed, and the
 mapping of failures to error messages. The upstream call and `JSON.parse`
 are parameters.
 */
module QuizRoute {

  import opened Options
  import opened Text

  /** A JSON value as `express.json` delivers it. A numeral too large for a
      double (such as `1e400`) parses to an infinity, `JInfinite`. */
  datatype Json =
    | JNull
    | JBool(b: bool)
    | JNumber(n: real)
    | JInfinite(negative: bool)
    | JString(s: string)
    | JArray(items: seq<Json>)
    | JObject(fields: map<string, Json>)

  /** The three body fields; `None` is an absent field (`undefined`). */
  datatype QuizRequest = QuizRequest(topic: Option<Json>, numQuestions: Option<Json>, difficulty: Option<Json>)

  /** JavaScript truthiness. Arrays and objects are truthy even when empty;
      JSON has no NaN, so a number is falsy exactly when it is zero, and an
      infinity is truthy. */
  predicate Truthy(v: Option<Json>) {
    match v
    case None => false
    case Some(JNull) => false
    case Some(JBool(b)) => b
    case Some(JNumber(n)) => n != 0.0
    case Some(JString(s)) => s != []
    case Some(_) => true
  }

  /** The falsy field values are exactly: absent, `null`, `false`, `0` and
      the empty string. */
  lemma FalsyValues(v: Option<Json>)
    ensures !Truthy(v) <==>
      v.None? || v == Some(JNull) || v == Some(JBool(false))
      || v == Some(JNumber(0.0)) || v == Some(JString([]))
  {
  }

  /** `Number.isInteger` on a finite number. */
  predicate IsInteger(x: real) {
    x.Floor as real == x
  }

  /** `String.prototype.toLowerCase` restricted to ASCII letters. No other
      character lowercases to a letter of "easy", "medium" or "hard", so this
      decides the difficulty check exactly as the full mapping does. */
  function LowerChar(c: char): char {
    if 'A' <= c <= 'Z' then (c as int + 32) as char else c
  }

  function UpperChar(c: char): char {
    if 'a' <= c <= 'z' then (c as int - 32) as char else c
  }

  function ToLower(s: string): (r: string)
    ensures |r| == |s| && forall i | 0 <= i < |s| :: r[i] == LowerChar(s[i])
  {
    seq(|s|, i requires 0 <= i < |s| => LowerChar(s[i]))
  }

  function ToUpper(s: string): (r: string)
    ensures |r| == |s| && forall i | 0 <= i < |s| :: r[i] == UpperChar(s[i])
  {
    seq(|s|, i requires 0 <= i < |s| => UpperChar(s[i]))
  }

  const Levels := ["easy", "medium", "hard"]

  datatype ValidationError = MissingFields | BadTopic | BadCount | BadDifficulty

  /** The 400 message of each check. */
  function ValidationMessage(e: ValidationError): string {
    match e
    case MissingFields => "Missing required fields: topic, numQuestions, difficulty"
    case BadTopic => "Topic must be a non-empty string."
    case BadCount => "Number of questions must be a positive integer."
    case BadDifficulty => "Difficulty must be one of: easy, medium, hard."
  }

  /** Each check has its own message, so the message names the failed check. */
  lemma ValidationMessagesDistinct(e1: ValidationError, e2: ValidationError)
    requires e1 != e2
    ensures ValidationMessage(e1) != ValidationMessage(e2)
  {
    assert |ValidationMessage(MissingFields)| == 56;
    assert |ValidationMessage(BadTopic)| == 33;
    assert |ValidationMessage(BadCount)| == 47;
    assert |ValidationMessage(BadDifficulty)| == 46;
  }

  /** A topic the second check lets through: a string with a character that
      is not whitespace. */
  predicate TopicAccepted(v: Option<Json>) {
    v.Some? && v.value.JString? && !AllSpace(v.value.s)
  }

  /** A count the third check lets through: a whole number of at least one,
      with no upper bound. */
  predicate CountAccepted(v: Option<Json>) {
    v.Some? && v.value.JNumber? && IsInteger(v.value.n) && v.value.n >= 1.0
  }

  predicate DifficultyAccepted(d: string) {
    ToLower(d) in Levels
  }

  /** The first three checks pass, so the difficulty reaches `toLowerCase`. */
  predicate ReachesDifficultyCheck(req: QuizRequest) {
    && Truthy(req.topic) && Truthy(req.numQuestions) && Truthy(req.difficulty)
    && TopicAccepted(req.topic) && CountAccepted(req.numQuestions)
  }

  /** The ordered input checks; `None` when the request is accepted. A
      truthy difficulty that is not a string would throw a `TypeError` at
      `toLowerCase`, which is outside this model. */
  function Validate(req: QuizRequest): (r: Option<ValidationError>)
    requires ReachesDifficultyCheck(req) ==> req.difficulty.value.JString?
    ensures r == Some(MissingFields) <==>
      !Truthy(req.topic) || !Truthy(req.numQuestions) || !Truthy(req.difficulty)
    ensures r == Some(BadTopic) <==>
      Truthy(req.topic) && Truthy(req.numQuestions) && Truthy(req.difficulty) && !TopicAccepted(req.topic)
    ensures r == Some(BadCount) <==>
      Truthy(req.topic) && Truthy(req.numQuestions) && Truthy(req.difficulty)
      && TopicAccepted(req.topic) && !CountAccepted(req.numQuestions)
    ensures r == Some(BadDifficulty) <==>
      ReachesDifficultyCheck(req) && !DifficultyAccepted(req.difficulty.value.s)
    ensures r.None? <==>
      && TopicAccepted(req.topic) && CountAccepted(req.numQuestions)
      && req.difficulty.Some? && req.difficulty.value.JString?
      && DifficultyAccepted(req.difficulty.value.s)
  {
    if !Truthy(req.topic) || !Truthy(req.numQuestions) || !Truthy(req.difficulty) then
      Some(MissingFields)
    else
      var topicOk := req.topic.value.JString? && Trim(req.topic.value.s) != [];
      TopicCheck(req.topic.value);
      if !topicOk then Some(BadTopic)
      else
        var count := req.numQuestions.value;
        if !count.JNumber? || !IsInteger(count.n) || count.n <= 0.0 then Some(BadCount)
        else if ToLower(req.difficulty.value.s) !in Levels then Some(BadDifficulty)
        else
          assert req.difficulty.value.s != [];
          None
  }

  /** `typeof topic !== 'string' || topic.trim() === ''` rejects exactly
      the values that are not strings with a non-whitespace character. */
  lemma TopicCheck(v: Json)
    ensures (v.JString? && Trim(v.s) != []) <==> (v.JString? && !AllSpace(v.s))
  {
    if v.JString? {
      TrimEmptyIffAllSpace(v.s);
    }
  }

  /** Lowercasing undoes uppercasing. */
  lemma LowerOfUpper(d: string)
    ensures ToLower(ToUpper(d)) == ToLower(d)
  {
    forall i | 0 <= i < |d| ensures LowerChar(UpperChar(d[i])) == LowerChar(d[i]) {
    }
  }

  /** The difficulty check ignores case: the upper-case spelling of a
      difficulty gets the same verdict. */
  lemma DifficultyCaseInsensitive(topic: Option<Json>, numQuestions: Option<Json>, d: string)
    ensures var lower := QuizRequest(topic, numQuestions, Some(JString(d)));
      var upper := QuizRequest(topic, numQuestions, Some(JString(ToUpper(d))));
      Validate(lower) == Validate(upper)
  {
    LowerOfUpper(d);
  }

  /** Zero questions is falsy, so it is reported as a missing field, not as a
      bad count. */
  lemma ZeroQuestionsIsMissing(topic: Option<Json>, difficulty: Option<Json>)
    ensures Validate(QuizRequest(topic, Some(JNumber(0.0)), difficulty)) == Some(MissingFields)
  {
  }

  /** A count that overflowed to an infinity is truthy, so it passes the
      first check, and `Number.isInteger` rejects it. */
  lemma InfiniteCountRejected(topic: string, d: string)
    requires !AllSpace(topic) && d != []
    ensures Validate(QuizRequest(Some(JString(topic)), Some(JInfinite(false)), Some(JString(d)))) == Some(BadCount)
  {
  }

  // ---------------------------------------------------------------------
  // Cleaning the model's reply

  const Fence := "```"
  const JsonFence := "```json\n"

  predicate StartsWith(s: string, p: string) {
    |p| <= |s| && s[..|p|] == p
  }

  /** `replace(/```json\n|```/g, '')`: scanning left to right, at each
      position the longer alternative is tried first, and a matched fence is
      dropped. */
  function StripFences(s: string): (r: string)
    ensures forall c | c !in JsonFence :: multiset(r)[c] == multiset(s)[c]
    ensures forall c | c in r :: c in s
    decreases |s|
  {
    if StartsWith(s, JsonFence) then
      DropPrefix(s, JsonFence);
      StripFences(s[|JsonFence|..])
    else if StartsWith(s, Fence) then
      DropPrefix(s, Fence);
      StripFences(s[|Fence|..])
    else if |s| == 0 then []
    else
      DropPrefix(s, [s[0]]);
      [s[0]] + StripFences(s[1..])
  }

  /** Dropping a prefix `p` of `s` keeps the count of every character
      not in `p`, and the rest's characters are characters of `s`. */
  lemma DropPrefix(s: string, p: string)
    requires StartsWith(s, p)
    ensures s == p + s[|p|..]
    ensures forall c | c !in p :: multiset(s[|p|..])[c] == multiset(s)[c]
    ensures forall c | c in s[|p|..] :: c in s
  {
    assert s == p + s[|p|..];
  }

  lemma Associative(a: string, b: string, c: string)
    ensures a + (b + c) == a + b + c
  {
  }

  /** The json fence is dropped whole. */
  lemma JsonFenceDropped(y: string)
    ensures StripFences(JsonFence + y) == StripFences(y)
  {
    var s := JsonFence + y;
    assert s[..|JsonFence|] == JsonFence;
    assert s[|JsonFence|..] == y;
  }

  /** A bare fence is dropped whole when it does not begin a json fence. */
  lemma FenceDropped(y: string)
    requires !StartsWith(Fence + y, JsonFence)
    ensures StripFences(Fence + y) == StripFences(y)
  {
    var s := Fence + y;
    assert s[..|Fence|] == Fence;
    assert s[|Fence|..] == y;
  }

  /** A character that does not begin a fence is kept in its place. */
  lemma CharKept(c: char, y: string)
    requires !StartsWith([c] + y, Fence)
    ensures StripFences([c] + y) == [c] + StripFences(y)
  {
    StartsWithFence([c] + y);
    assert ([c] + y)[1..] == y;
  }

  /** Text whose last character cannot be part of a fence starts with a
      fence exactly when the same text followed by more does. */
  lemma SeamPrefix(x: string, y: string, p: string)
    requires |x| > 0 && x[|x| - 1] !in JsonFence
    requires forall i | 0 <= i < |p| :: p[i] in JsonFence
    ensures StartsWith(x + y, p) <==> StartsWith(x, p)
  {
    if |x| >= |p| {
      assert (x + y)[..|p|] == x[..|p|];
    } else if |p| <= |x + y| {
      assert (x + y)[..|p|][|x| - 1] == x[|x| - 1];
    }
  }

  /** The rest of `x` after its front `p`. */
  lemma SplitFront(x: string, p: string) returns (rest: string)
    requires StartsWith(x, p)
    ensures x == p + rest && |rest| == |x| - |p|
    ensures |rest| > 0 ==> rest[|rest| - 1] == x[|x| - 1]
  {
    rest := x[|p|..];
    assert x == p + rest;
  }

  /** Splitting off a front `p` of `x`, and stripping the rest followed by
      `y`, which the rest's own last character still allows. */
  lemma {:induction false} StripSeam(x: string, y: string, p: string) returns (rest: string)
    requires |x| > 0 && x[|x| - 1] !in JsonFence
    requires StartsWith(x, p) && |p| > 0
    ensures x == p + rest && x + y == p + (rest + y)
    ensures StripFences(rest + y) == StripFences(rest) + StripFences(y)
    decreases |x|, 0
  {
    rest := SplitFront(x, p);
    Associative(p, rest, y);
    StripAppend(rest, y);
  }

  /** Stripping keeps the order of the text: when the first part ends in a
      character no fence contains, no fence spans the seam and the two parts
      are stripped independently. */
  lemma {:induction false} StripAppend(x: string, y: string)
    requires |x| == 0 || x[|x| - 1] !in JsonFence
    ensures StripFences(x + y) == StripFences(x) + StripFences(y)
    decreases |x|, 1
  {
    if |x| == 0 {
      assert x + y == y;
    } else {
      SeamPrefix(x, y, JsonFence);
      SeamPrefix(x, y, Fence);
      if StartsWith(x, JsonFence) {
        var rest := StripSeam(x, y, JsonFence);
        JsonFenceDropped(rest);
        JsonFenceDropped(rest + y);
      } else if StartsWith(x, Fence) {
        var rest := StripSeam(x, y, Fence);
        FenceDropped(rest);
        FenceDropped(rest + y);
      } else {
        var rest := StripSeam(x, y, [x[0]]);
        CharKept(x[0], rest);
        CharKept(x[0], rest + y);
        Associative([x[0]], StripFences(rest), StripFences(y));
      }
    }
  }

  /** Number of backticks at the front of `s`. */
  function LeadingTicks(s: string): (n: nat)
    ensures n <= |s|
  {
    if |s| > 0 && s[0] == '`' then 1 + LeadingTicks(s[1..]) else 0
  }

  /** A fence occurs at `i` exactly when three backticks stand there. */
  lemma FenceAt(s: string, i: int)
    ensures OccursAt(s, Fence, i) <==>
      0 <= i && i + 3 <= |s| && s[i] == '`' && s[i + 1] == '`' && s[i + 2] == '`'
  {
    if 0 <= i && i + 3 <= |s| {
      assert s[i..i + 3] == [s[i], s[i + 1], s[i + 2]];
    }
  }

  /** Starting with either alternative means starting with three backticks. */
  lemma StartsWithFence(s: string)
    ensures StartsWith(s, Fence) <==> |s| >= 3 && s[0] == '`' && s[1] == '`' && s[2] == '`'
    ensures StartsWith(s, JsonFence) ==> StartsWith(s, Fence)
  {
    FenceAt(s, 0);
    assert StartsWith(s, Fence) <==> OccursAt(s, Fence, 0);
    if |s| >= |JsonFence| {
      assert s[..|JsonFence|][..3] == s[..3];
    }
  }

  /** When `s` does not start with a fence, its leading backticks (at most
      two) come through unchanged. */
  lemma {:induction false} StripKeepsLeadingTicks(s: string)
    requires !StartsWith(s, Fence)
    ensures LeadingTicks(StripFences(s)) == LeadingTicks(s) <= 2
    decreases |s|
  {
    StartsWithFence(s);
    if |s| > 0 && s[0] == '`' {
      var rest := s[1..];
      StartsWithFence(rest);
      StripKeepsLeadingTicks(rest);
      assert StripFences(s) == [s[0]] + StripFences(rest);
      if |rest| > 0 && rest[0] == '`' {
        assert LeadingTicks(rest) == 1 + LeadingTicks(rest[1..]);
        assert |rest| == 1 || rest[1..][0] != '`';
      }
    }
  }

  /** No fence is left after stripping, even where removing one brings
      backticks together. */
  lemma {:induction false} StripLeavesNoFence(s: string)
    ensures forall i :: !OccursAt(StripFences(s), Fence, i)
    decreases |s|
  {
    StartsWithFence(s);
    if StartsWith(s, JsonFence) {
      StripLeavesNoFence(s[|JsonFence|..]);
    } else if StartsWith(s, Fence) {
      StripLeavesNoFence(s[|Fence|..]);
    } else if |s| > 0 {
      var rest := s[1..];
      var tail := StripFences(rest);
      var r := StripFences(s);
      assert r == [s[0]] + tail;
      StripLeavesNoFence(rest);
      forall i ensures !OccursAt(r, Fence, i) {
        FenceAt(r, i);
        if i == 0 && |r| >= 3 && s[0] == '`' {
          StartsWithFence(rest);
          StripKeepsLeadingTicks(rest);
          if |rest| > 0 && rest[0] == '`' {
            assert LeadingTicks(rest) == 1 + LeadingTicks(rest[1..]);
            assert |rest| == 1 || rest[1..][0] != '`';
          }
          if tail[0] == '`' {
            assert LeadingTicks(tail) == 1 + LeadingTicks(tail[1..]);
            assert tail[1..][0] == tail[1];
          }
        } else if i > 0 {
          FenceAt(tail, i - 1);
        }
      }
    }
  }

  /** A string without fences is left as it is. */
  lemma {:induction false} StripWithoutFences(s: string)
    requires forall i :: !OccursAt(s, Fence, i)
    ensures StripFences(s) == s
    decreases |s|
  {
    if |s| > 0 {
      StartsWithFence(s);
      FenceAt(s, 0);
      forall i ensures !OccursAt(s[1..], Fence, i) {
        FenceAt(s[1..], i);
        FenceAt(s, i + 1);
      }
      StripWithoutFences(s[1..]);
    }
  }

  /** Fences do not occur in an infix of a string that has none. */
  lemma NoFenceInInfix(t: string, a: nat, b: nat)
    requires a <= b <= |t| && forall i :: !OccursAt(t, Fence, i)
    ensures forall i :: !OccursAt(t[a..b], Fence, i)
  {
    forall i ensures !OccursAt(t[a..b], Fence, i) {
      FenceAt(t[a..b], i);
      FenceAt(t, a + i);
    }
  }

  /** `quizDataString.replace(...).trim()`. */
  function Clean(s: string): (r: string)
    ensures forall i :: !OccursAt(r, Fence, i)
    ensures |r| > 0 ==> !IsSpace(r[0]) && !IsSpace(r[|r| - 1])
  {
    var stripped := StripFences(s);
    StripLeavesNoFence(s);
    var r := Trim(stripped);
    NoFenceInInfix(stripped, LeadingSpaces(stripped), LeadingSpaces(stripped) + |r|);
    r
  }

  /** Cleaning twice is cleaning once. */
  lemma CleanIdempotent(s: string)
    ensures Clean(Clean(s)) == Clean(s)
  {
    var c := Clean(s);
    StripWithoutFences(c);
    TrimOfTrimmed(c);
  }

  /** A fenced reply loses its fences and surrounding line breaks. */
  lemma CleanFencedExample()
    ensures Clean("```json\n[]\n```") == "[]"
  {
    var s := "```json\n[]\n```";
    assert StartsWith(s, JsonFence);
    var t := "[]\n```";
    assert s[|JsonFence|..] == t;
    assert StripFences(t) == "[]\n" by {
      assert t[1..] == "]\n```";
      assert t[1..][1..] == "\n```";
      assert t[1..][1..][1..] == Fence;
      assert StartsWith(Fence, Fence);
      assert Fence[3..] == [];
    }
    assert LeadingSpaces("[]\n") == 0;
    assert TrailingSpaces("[]\n") == 1 by {
      assert TrailingSpaces("[]") == 0;
      assert "[]\n"[..2] == "[]";
    }
  }

  // ---------------------------------------------------------------------
  // The handler

  /** What came back from the model API: the reply text, or a failure of
      the request (no response, an error status, or a response without the
      expected text, which throws a `TypeError` when read). */
  datatype Upstream = Reply(text: string) | RequestFailed

  /** The classes of exception the handler's catch block distinguishes. */
  datatype Failure = ParseFailure | OtherFailure

  /** `error instanceof SyntaxError` picks the parse message; every other
      error gets the generic one. */
  function FailureMessage(f: Failure): (m: string)
    ensures f == ParseFailure <==> m == "Failed to parse the quiz data from the API."
    ensures f == OtherFailure <==> m == "Failed to generate quiz. Please check the API key and try again."
  {
    match f
    case ParseFailure => "Failed to parse the quiz data from the API."
    case OtherFailure => "Failed to generate quiz. Please check the API key and try again."
  }

  const MissingKeyMessage := "Gemini API key not found."

  datatype Response = QuizBody(body: Json) | ErrorResponse(status: nat, message: string)

  /** The `/generate-quiz` handler. `apiKey` is the configured key (empty
      when unset); `parse` is `JSON.parse`, `None` standing for a
      `SyntaxError`. */
  function GenerateQuiz(req: QuizRequest, apiKey: string, upstream: Upstream, parse: string -> Option<Json>): (r: Response)
    requires ReachesDifficultyCheck(req) ==> req.difficulty.value.JString?
    ensures r.ErrorResponse? ==> r.status == 400 || r.status == 500
    ensures r.ErrorResponse? && r.status == 400 <==> Validate(req).Some?
    ensures Validate(req).Some? ==> r.message == ValidationMessage(Validate(req).value)
    ensures Validate(req).None? && apiKey == [] ==> r == ErrorResponse(500, MissingKeyMessage)
    ensures r.QuizBody? <==>
      Validate(req).None? && apiKey != [] && upstream.Reply? && parse(Clean(upstream.text)).Some?
    ensures r.QuizBody? ==> r.body == parse(Clean(upstream.text)).value
    ensures Validate(req).None? && apiKey != [] && upstream.RequestFailed? ==>
      r == ErrorResponse(500, FailureMessage(OtherFailure))
    ensures Validate(req).None? && apiKey != [] && upstream.Reply? && parse(Clean(upstream.text)).None? ==>
      r == ErrorResponse(500, FailureMessage(ParseFailure))
  {
    match Validate(req)
    case Some(e) => ErrorResponse(400, ValidationMessage(e))
    case None =>
      if apiKey == [] then ErrorResponse(500, MissingKeyMessage)
      else
        match upstream
        case RequestFailed => ErrorResponse(500, FailureMessage(OtherFailure))
        case Reply(text) =>
          match parse(Clean(text))
          case Some(quiz) => QuizBody(quiz)
          case None => ErrorResponse(500, FailureMessage(ParseFailure))
  }

  /** Validation runs before the key is looked at: an invalid request gets
      the same 400 whatever the key and whatever the API would answer. */
  lemma ValidationBeforeKey(req: QuizRequest, key1: string, key2: string, up1: Upstream, up2: Upstream,
                            parse1: string -> Option<Json>, parse2: string -> Option<Json>)
    requires ReachesDifficultyCheck(req) ==> req.difficulty.value.JString?
    requires Validate(req).Some?
    ensures GenerateQuiz(req, key1, up1, parse1) == GenerateQuiz(req, key2, up2, parse2)
  {
  }
}
