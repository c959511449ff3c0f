/**
 The chat widget: the open and full-screen flags, the transcript updates of a
 sent message and of a follow-up suggestion, and the cleanup of a reply's
 markdown before it is spoken. The reply of the chat endpoint is a
 parameter, and each exchange is taken to complete before the next event.
 */
module Chatbot {

  import opened Text

  datatype Sender = User | Bot

  /** The three follow-up buttons under a bot reply. */
  datatype SuggestionId = Example | Summarize | Related

  const AllSuggestions := [Example, Summarize, Related]

  /** A transcript entry; user messages and the error message carry no
      suggestions. */
  datatype Message = Message(sender: Sender, text: string, suggestions: seq<SuggestionId>)

  datatype Chat = Chat(isOpen: bool, isFullScreen: bool, messages: seq<Message>, input: string)

  /** The chat endpoint's answer: a reply text, or a failed request. */
  datatype Outcome = Replied(text: string) | ConnectionFailed

  const Apology := "Sorry, I am having trouble connecting. Please try again later."

  // ---------------------------------------------------------------------
  // Window flags

  /** Full screen only while the window is open. */
  predicate WindowValid(c: Chat) {
    !c.isOpen ==> !c.isFullScreen
  }

  /** `toggleChat`: flips the open flag; closing also leaves full screen. */
  function ToggleChat(c: Chat): (r: Chat)
    ensures r.isOpen == !c.isOpen
    ensures c.isOpen ==> !r.isFullScreen
    ensures !c.isOpen ==> r.isFullScreen == c.isFullScreen
    ensures r.(isOpen := c.isOpen, isFullScreen := c.isFullScreen) == c
    ensures WindowValid(r)
  {
    var full := if c.isOpen && c.isFullScreen then false else c.isFullScreen;
    c.(isOpen := !c.isOpen, isFullScreen := full)
  }

  /** `toggleFullScreen`; its button is inside the window, which is hidden
      while closed. */
  function ToggleFullScreen(c: Chat): (r: Chat)
    requires c.isOpen
    ensures r.isFullScreen == !c.isFullScreen && r.isOpen
    ensures r.(isFullScreen := c.isFullScreen) == c
    ensures WindowValid(r)
  {
    c.(isFullScreen := !c.isFullScreen)
  }

  /** Closing and reopening comes back to the windowed chat: whatever the
      full-screen state was, reopening shows the window not full screen. */
  lemma CloseReopen(c: Chat)
    requires c.isOpen
    ensures var back := ToggleChat(ToggleChat(c));
      back.isOpen && !back.isFullScreen && back.messages == c.messages
  {
  }

  // ---------------------------------------------------------------------
  // Transcript

  /** The bot message appended after a request: the reply with the three
      suggestions, or the apology without any. */
  function BotMessage(outcome: Outcome): (m: Message)
    ensures m.sender == Bot
    ensures outcome.Replied? ==> m.text == outcome.text && m.suggestions == AllSuggestions
    ensures outcome.ConnectionFailed? ==> m.text == Apology && m.suggestions == []
  {
    match outcome
    case Replied(text) => Message(Bot, text, AllSuggestions)
    case ConnectionFailed => Message(Bot, Apology, [])
  }

  /** `handleSend`: blank input sends nothing; otherwise the input becomes a
      user message, the bot's message follows it, and the input is cleared. */
  function HandleSend(c: Chat, outcome: Outcome): (r: Chat)
    ensures AllSpace(c.input) ==> r == c
    ensures !AllSpace(c.input) ==>
      && |r.messages| == |c.messages| + 2
      && r.messages[..|c.messages|] == c.messages
      && r.messages[|c.messages|] == Message(User, c.input, [])
      && r.messages[|c.messages| + 1] == BotMessage(outcome)
      && r.input == []
      && r.isOpen == c.isOpen && r.isFullScreen == c.isFullScreen
  {
    TrimEmptyIffAllSpace(c.input);
    if Trim(c.input) == [] then c
    else
      c.(messages := c.messages + [Message(User, c.input, []), BotMessage(outcome)], input := [])
  }

  /** The fixed text around the quoted question in each suggestion's prompt. */
  function PromptParts(id: SuggestionId): (string, string) {
    match id
    case Example =>
      ("Based on your previous question about \"",
       "\", please provide a practical example to help me understand this concept better.")
    case Summarize =>
      ("Here's what you explained about \"",
       "\". Please provide a concise summary of the key points.")
    case Related =>
      ("You explained about \"",
       "\". Please suggest 2-3 related concepts or subtopics that I might find interesting to explore next. Format your response like this: \"You might also like: Topic 1, Topic 2, and Topic 3. Here's why each is interesting: [brief explanation]\"")
  }

  /** The prompt a suggestion sends, quoting the user's earlier question. */
  function SuggestionPrompt(id: SuggestionId, question: string): (p: string)
    ensures Contains(p, question)
  {
    var parts := PromptParts(id);
    ContainsInMiddle(parts.0, question, parts.1);
    parts.0 + question + parts.1
  }

  /** `handleSuggestion`. Its buttons exist only under a bot message, so
      the transcript is not empty, and a bot message always follows a user
      message. It acts only when the last message is the bot's: the prompt
      about the message two from the end is sent as a user message and the
      bot's message follows it. */
  function HandleSuggestion(c: Chat, id: SuggestionId, outcome: Outcome): (r: Chat)
    requires |c.messages| > 0
    requires c.messages[|c.messages| - 1].sender == Bot ==> |c.messages| >= 2
    ensures c.messages[|c.messages| - 1].sender != Bot ==> r == c
    ensures c.messages[|c.messages| - 1].sender == Bot ==>
      && |r.messages| == |c.messages| + 2
      && r.messages[..|c.messages|] == c.messages
      && r.messages[|c.messages|].sender == User
      && r.messages[|c.messages|].suggestions == []
      && Contains(r.messages[|c.messages|].text, c.messages[|c.messages| - 2].text)
      && r.messages[|c.messages|].text == SuggestionPrompt(id, c.messages[|c.messages| - 2].text)
      && r.messages[|c.messages| + 1] == BotMessage(outcome)
      && r.input == []
      && r.isOpen == c.isOpen && r.isFullScreen == c.isFullScreen
  {
    var last := c.messages[|c.messages| - 1];
    if last.sender == Bot then
      var question := c.messages[|c.messages| - 2];
      var prompt := SuggestionPrompt(id, question.text);
      c.(messages := c.messages + [Message(User, prompt, []), BotMessage(outcome)], input := [])
    else c
  }

  /** The transcript alternates user and bot messages, starting with the
      user. */
  predicate Alternating(messages: seq<Message>) {
    && |messages| % 2 == 0
    && forall i | 0 <= i < |messages| :: messages[i].sender == (if i % 2 == 0 then User else Bot)
  }

  /** Extending a transcript by a user message and then a bot message keeps
      it alternating. */
  lemma ExtendPair(m: seq<Message>, m': seq<Message>)
    requires Alternating(m) && |m'| == |m| + 2 && m'[..|m|] == m
    requires m'[|m|].sender == User && m'[|m| + 1].sender == Bot
    ensures Alternating(m')
  {
    var n := |m|;
    assert (n + 2) % 2 == 0 && n % 2 == 0 && (n + 1) % 2 == 1;
    forall i | 0 <= i < |m'| ensures m'[i].sender == (if i % 2 == 0 then User else Bot) {
      if i < n {
        assert m'[i] == m'[..n][i];
      }
    }
  }

  /** A send keeps the transcript alternating. */
  lemma SendAlternates(c: Chat, outcome: Outcome)
    requires Alternating(c.messages)
    ensures Alternating(HandleSend(c, outcome).messages)
  {
    if !AllSpace(c.input) {
      ExtendPair(c.messages, HandleSend(c, outcome).messages);
    }
  }

  /** A non-empty alternating transcript ends with a user message followed
      by a bot message. */
  lemma LastTwo(m: seq<Message>)
    requires Alternating(m) && |m| > 0
    ensures |m| >= 2 && m[|m| - 2].sender == User && m[|m| - 1].sender == Bot
  {
    var n := |m|;
    assert n % 2 == 0;
    assert (n - 1) % 2 == 1 && (n - 2) % 2 == 0;
  }

  /** In an alternating transcript a suggestion always acts, quoting the last
      user message, and keeps the transcript alternating. */
  lemma SuggestionAlternates(c: Chat, id: SuggestionId, outcome: Outcome)
    requires Alternating(c.messages) && |c.messages| > 0
    ensures |c.messages| >= 2 && c.messages[|c.messages| - 2].sender == User
    ensures var r := HandleSuggestion(c, id, outcome);
      Alternating(r.messages) && |r.messages| == |c.messages| + 2
  {
    var n := |c.messages|;
    LastTwo(c.messages);
    ExtendPair(c.messages, HandleSuggestion(c, id, outcome).messages);
  }

  // ---------------------------------------------------------------------
  // Speech text

  /** Length of the run of characters satisfying `p` at the front of `s`. */
  function RunLength(s: string, p: char -> bool): (n: nat)
    ensures n <= |s|
    ensures forall i | 0 <= i < n :: p(s[i])
    ensures n < |s| ==> !p(s[n])
  {
    if |s| > 0 && p(s[0]) then
      var n := 1 + RunLength(s[1..], p);
      assert forall i | 1 <= i < n :: s[i] == s[1..][i - 1];
      n
    else 0
  }

  /** The characters a run of class `p` at the front of `s` takes away:
      none outside the class. */
  lemma RunHasNoOthers(s: string, p: char -> bool, n: nat)
    requires n <= |s| && forall i | 0 <= i < n :: p(s[i])
    ensures s == s[..n] + s[n..]
    ensures forall c | !p(c) :: multiset(s[..n])[c] == 0
  {
    assert s == s[..n] + s[n..];
    forall c | !p(c) ensures multiset(s[..n])[c] == 0 {
      assert forall i | 0 <= i < n :: s[..n][i] != c;
    }
  }

  /** What the bullet pass promises of its result `r` for the text `s`:
      every character other than a star or whitespace keeps its count, no
      character is added, and no star is directly followed by whitespace.
      The last two conjuncts carry the induction: a first character that is
      not a star stays first, and a leading whitespace character can only be
      the text's own first character. */
  ghost predicate BulletsRemoved(s: string, r: string) {
    && (forall c | c != '*' && !IsSpace(c) :: multiset(r)[c] == multiset(s)[c])
    && (forall i | 0 <= i < |r| :: r[i] in s)
    && (forall i | 0 <= i < |r| - 1 :: !(r[i] == '*' && IsSpace(r[i + 1])))
    && (|r| > 0 && |s| > 0 && s[0] != '*' ==> r[0] == s[0])
    && (|r| > 0 ==> !IsSpace(r[0]) || (|s| > 0 && r[0] == s[0]))
  }

  /** Dropping a star and the maximal whitespace run after it. */
  lemma BulletStep(s: string, n: nat, r: string)
    requires |s| >= 2 && s[0] == '*' && IsSpace(s[1])
    requires n <= |s| - 1 && forall i | 0 <= i < n :: IsSpace(s[1..][i])
    requires n < |s| - 1 ==> !IsSpace(s[1..][n])
    requires BulletsRemoved(s[1 + n..], r)
    ensures BulletsRemoved(s, r)
  {
    var rest := s[1 + n..];
    RunHasNoOthers(s[1..], IsSpace, n);
    assert s == [s[0]] + s[1..][..n] + rest;
    assert forall c | c in rest :: c in s;
    assert |rest| > 0 ==> rest[0] == s[1..][n];
  }

  /** Copying a first character that does not start a bullet. */
  lemma BulletKeep(s: string, tail: string)
    requires |s| > 0 && !(|s| >= 2 && s[0] == '*' && IsSpace(s[1]))
    requires BulletsRemoved(s[1..], tail)
    ensures BulletsRemoved(s, [s[0]] + tail)
  {
    var r := [s[0]] + tail;
    assert s == [s[0]] + s[1..];
    assert forall i | 1 <= i < |r| :: r[i] == tail[i - 1];
    assert forall c | c in s[1..] :: c in s;
    assert |tail| > 0 ==> |s| >= 2 && s[1..][0] == s[1];
  }

  /** `replace(/\*\s+/g, '')`: a star followed by whitespace is removed
      together with the whole run of whitespace after it. `BulletDropped`,
      `StarKept` and `OtherKept` state the three cases, and together they
      determine the pass on every text. */
  function RemoveBullets(s: string): string
    decreases |s|
  {
    if |s| >= 2 && s[0] == '*' && IsSpace(s[1]) then
      RemoveBullets(s[1 + RunLength(s[1..], IsSpace)..])
    else if |s| == 0 then []
    else [s[0]] + RemoveBullets(s[1..])
  }

  /** The bullet pass keeps what it promises. */
  lemma {:induction false} BulletsRemovedBy(s: string)
    ensures BulletsRemoved(s, RemoveBullets(s))
    decreases |s|
  {
    if |s| >= 2 && s[0] == '*' && IsSpace(s[1]) {
      var n := RunLength(s[1..], IsSpace);
      BulletsRemovedBy(s[1 + n..]);
      BulletStep(s, n, RemoveBullets(s[1 + n..]));
    } else if |s| > 0 {
      BulletsRemovedBy(s[1..]);
      BulletKeep(s, RemoveBullets(s[1..]));
    }
  }

  /** A bullet — a star and the whole whitespace run after it — is removed. */
  lemma BulletDropped(w: string, y: string)
    requires |w| > 0 && AllSpace(w)
    requires |y| == 0 || !IsSpace(y[0])
    ensures RemoveBullets("*" + w + y) == RemoveBullets(y)
  {
    var s := "*" + w + y;
    assert s[1..] == w + y;
    assert RunLength(w, IsSpace) == |w|;
    RunLengthAppend(w, y, IsSpace);
    BulletUnfold(s);
    assert s[1 + |w|..] == y;
  }

  /** A star that is not followed by whitespace stays. */
  lemma StarKept(y: string)
    requires |y| == 0 || !IsSpace(y[0])
    ensures RemoveBullets("*" + y) == "*" + RemoveBullets(y)
  {
    assert ("*" + y)[1..] == y;
  }

  /** Every character other than a star stays. */
  lemma OtherKept(c: char, y: string)
    requires c != '*'
    ensures RemoveBullets([c] + y) == [c] + RemoveBullets(y)
  {
    assert ([c] + y)[1..] == y;
  }

  /** Number of stars directly followed by whitespace: the bullets. */
  function BulletStarts(s: string): nat {
    if |s| < 2 then 0
    else (if s[0] == '*' && IsSpace(s[1]) then 1 else 0) + BulletStarts(s[1..])
  }

  /** Leading whitespace starts no bullet. */
  lemma {:induction false} BulletStartsAfterSpaces(t: string, n: nat)
    requires n <= |t| && forall i | 0 <= i < n :: IsSpace(t[i])
    ensures BulletStarts(t) == BulletStarts(t[n..])
    decreases n
  {
    if n > 0 {
      assert t[1..][n - 1..] == t[n..];
      BulletStartsAfterSpaces(t[1..], n - 1);
    }
  }

  /** The bullet pass removes exactly one star per bullet: the stars that
      remain are those not followed by whitespace. */
  lemma {:induction false} StarsRemoved(s: string)
    ensures multiset(RemoveBullets(s))['*'] + BulletStarts(s) == multiset(s)['*']
    decreases |s|
  {
    if |s| >= 2 && s[0] == '*' && IsSpace(s[1]) {
      var rest := BulletCounts(s);
      StarsRemoved(rest);
    } else if |s| > 0 {
      KeptCounts(s);
      StarsRemoved(s[1..]);
    }
  }

  /** A bullet at the front takes one star and starts one bullet. */
  lemma BulletCounts(s: string) returns (rest: string)
    requires |s| >= 2 && s[0] == '*' && IsSpace(s[1])
    ensures |rest| < |s| && RemoveBullets(s) == RemoveBullets(rest)
    ensures BulletStarts(s) == 1 + BulletStarts(rest)
    ensures multiset(s)['*'] == 1 + multiset(rest)['*']
  {
    var n := RunLength(s[1..], IsSpace);
    rest := s[1 + n..];
    BulletUnfold(s);
    BulletStartsAfterSpaces(s[1..], n);
    assert s[1..][n..] == rest;
    RunHasNoOthers(s[1..], IsSpace, n);
    assert s == [s[0]] + s[1..][..n] + rest;
  }

  /** A first character that starts no bullet is kept and starts none. */
  lemma KeptCounts(s: string)
    requires |s| > 0 && !(|s| >= 2 && s[0] == '*' && IsSpace(s[1]))
    ensures multiset(RemoveBullets(s))['*'] == multiset([s[0]])['*'] + multiset(RemoveBullets(s[1..]))['*']
    ensures BulletStarts(s) == BulletStarts(s[1..])
    ensures multiset(s)['*'] == multiset([s[0]])['*'] + multiset(s[1..])['*']
  {
    assert s == [s[0]] + s[1..];
  }


  /** `replace(/`/g, '')`: every character but the backtick stays, as often
      as it occurs. */
  function RemoveBackticks(s: string): (r: string)
    ensures forall c :: multiset(r)[c] == if c == '`' then 0 else multiset(s)[c]
    ensures forall c | c in r :: c in s && c != '`'
    ensures |r| <= |s|
  {
    if |s| == 0 then []
    else
      assert forall c | c in s[1..] :: c in s;
      assert s == [s[0]] + s[1..];
      (if s[0] == '`' then [] else [s[0]]) + RemoveBackticks(s[1..])
  }

  /** What the run-collapsing pass for class `p` promises of its result `r`
      for the text `s`: every character outside the class other than the
      space keeps its count, any other character is a space, and when the
      space is in the class no two class characters are adjacent. The last
      two conjuncts carry the induction: empty text stays empty, and a first
      character outside the class stays first. */
  ghost predicate RunsCollapsed(s: string, r: string, p: char -> bool) {
    && (forall c | !p(c) && c != ' ' :: multiset(r)[c] == multiset(s)[c])
    && (forall c | c in r :: c == ' ' || (c in s && !p(c)))
    && (|r| == 0 <==> |s| == 0)
    && (|s| > 0 && !p(s[0]) ==> |r| > 0 && r[0] == s[0])
    && (p(' ') ==> forall i | 0 <= i < |r| - 1 :: !(p(r[i]) && p(r[i + 1])))
  }

  /** Replacing the maximal run of class characters at the front by a space. */
  lemma CollapseStep(s: string, p: char -> bool, n: nat, tail: string)
    requires 0 < n <= |s| && forall i | 0 <= i < n :: p(s[i])
    requires n < |s| ==> !p(s[n])
    requires RunsCollapsed(s[n..], tail, p)
    ensures RunsCollapsed(s, [' '] + tail, p)
  {
    var r := [' '] + tail;
    RunHasNoOthers(s, p, n);
    assert forall c | c in s[n..] :: c in s;
    assert forall i | 1 <= i < |r| :: r[i] == tail[i - 1];
    assert n < |s| ==> s[n..][0] == s[n];
  }

  /** Copying a first character outside the class. */
  lemma CollapseKeep(s: string, p: char -> bool, tail: string)
    requires |s| > 0 && !p(s[0])
    requires RunsCollapsed(s[1..], tail, p)
    ensures RunsCollapsed(s, [s[0]] + tail, p)
  {
    var r := [s[0]] + tail;
    assert s == [s[0]] + s[1..];
    assert forall c | c in s[1..] :: c in s;
    assert forall i | 1 <= i < |r| :: r[i] == tail[i - 1];
  }

  /** `replace(/X+/g, ' ')` for the class `p`: every maximal run of
      characters in the class becomes a single space; every character
      outside the class other than the space stays, as often as it occurs. */
  function CollapseRuns(s: string, p: char -> bool): string
    decreases |s|
  {
    if |s| == 0 then []
    else if p(s[0]) then [' '] + CollapseRuns(s[RunLength(s, p)..], p)
    else [s[0]] + CollapseRuns(s[1..], p)
  }

  /** The run-collapsing pass keeps what it promises. */
  lemma {:induction false} RunsCollapsedBy(s: string, p: char -> bool)
    ensures RunsCollapsed(s, CollapseRuns(s, p), p)
    decreases |s|
  {
    if |s| > 0 && p(s[0]) {
      var n := RunLength(s, p);
      RunsCollapsedBy(s[n..], p);
      CollapseStep(s, p, n, CollapseRuns(s[n..], p));
    } else if |s| > 0 {
      RunsCollapsedBy(s[1..], p);
      CollapseKeep(s, p, CollapseRuns(s[1..], p));
    }
  }

  predicate IsNewline(c: char) {
    c == '\n'
  }

  /** The cleanup applied to a reply before it is spoken: bullets removed,
      backticks removed, runs of line feeds and then runs of whitespace made
      single spaces, and the ends trimmed. Every character that is not a
      star, a backtick or whitespace is spoken as often as it is written. */
  function SpeechText(message: string): (r: string)
    ensures forall c | c != '*' && c != '`' && !IsSpace(c) :: multiset(r)[c] == multiset(message)[c]
    ensures forall c | c in r :: c != '`'
    ensures forall c | c in r && IsSpace(c) :: c == ' '
    ensures forall i | 0 <= i < |r| - 1 :: !(IsSpace(r[i]) && IsSpace(r[i + 1]))
    ensures |r| > 0 ==> !IsSpace(r[0]) && !IsSpace(r[|r| - 1])
  {
    var noTicks := RemoveBackticks(RemoveBullets(message));
    var lines := CollapseRuns(noTicks, IsNewline);
    var spaced := CollapseRuns(lines, IsSpace);
    CleanupCounts(message, noTicks, lines, spaced);
    SpacedText(noTicks, lines, spaced);
    var r := Trim(spaced);
    TrimmedText(spaced, r);
    TrimKeepsWords(spaced);
    r
  }

  /** A bullet at the front of a reply is not spoken. */
  lemma SpeechOfBullet(w: string, a: string)
    requires |w| > 0 && AllSpace(w)
    requires |a| == 0 || !IsSpace(a[0])
    ensures SpeechText("*" + w + a) == SpeechText(a)
  {
    BulletDropped(w, a);
  }

  /** For example, "* Hi" is spoken as "Hi". */
  lemma BulletExample()
    ensures SpeechText("* Hi") == "Hi"
  {
    assert "* Hi" == "*" + " " + "Hi";
    SpeechOfBullet(" ", "Hi");
    HiSpokenAsIs();
  }

  lemma HiSpokenAsIs()
    ensures SpeechText("Hi") == "Hi"
  {
    var hi := "Hi";
    assert !IsSpace(hi[0]) && !IsSpace(hi[1]);
    PlainTextSpokenAsIs(hi);
  }

  /** The passes before trimming keep every character that is not a star,
      a backtick or whitespace, as often as it occurs. */
  lemma CleanupCounts(message: string, noTicks: string, lines: string, spaced: string)
    requires noTicks == RemoveBackticks(RemoveBullets(message))
    requires lines == CollapseRuns(noTicks, IsNewline)
    requires spaced == CollapseRuns(lines, IsSpace)
    ensures forall c | c != '*' && c != '`' && !IsSpace(c) :: multiset(spaced)[c] == multiset(message)[c]
  {
    BulletsRemovedBy(message);
    RunsCollapsedBy(noTicks, IsNewline);
    RunsCollapsedBy(lines, IsSpace);
    assert IsSpace(' ') && IsSpace('\n');
  }

  /** The two collapsing passes leave no backtick, only plain spaces as
      whitespace, and no two whitespace characters side by side. */
  lemma SpacedText(noTicks: string, lines: string, spaced: string)
    requires forall c | c in noTicks :: c != '`'
    requires lines == CollapseRuns(noTicks, IsNewline)
    requires spaced == CollapseRuns(lines, IsSpace)
    ensures forall c | c in spaced :: c != '`' && (IsSpace(c) ==> c == ' ')
    ensures forall i | 0 <= i < |spaced| - 1 :: !(IsSpace(spaced[i]) && IsSpace(spaced[i + 1]))
  {
    RunsCollapsedBy(noTicks, IsNewline);
    RunsCollapsedBy(lines, IsSpace);
    assert IsSpace(' ');
    assert forall c | c in lines :: c != '`';
  }

  /** Trimming keeps those properties and removes whitespace at the ends. */
  lemma TrimmedText(spaced: string, r: string)
    requires forall c | c in spaced :: c != '`' && (IsSpace(c) ==> c == ' ')
    requires forall i | 0 <= i < |spaced| - 1 :: !(IsSpace(spaced[i]) && IsSpace(spaced[i + 1]))
    requires r == Trim(spaced)
    ensures forall c | c in r :: c != '`' && (IsSpace(c) ==> c == ' ')
    ensures forall i | 0 <= i < |r| - 1 :: !(IsSpace(r[i]) && IsSpace(r[i + 1]))
    ensures |r| > 0 ==> !IsSpace(r[0]) && !IsSpace(r[|r| - 1])
  {
    var k := LeadingSpaces(spaced);
    assert forall i | 0 <= i < |r| :: r[i] == spaced[k + i];
  }

  /** Text without a star is not touched by the bullet pass. */
  lemma {:induction false} BulletsWithoutStar(s: string)
    requires '*' !in s
    ensures RemoveBullets(s) == s
    decreases |s|
  {
    if |s| > 0 {
      assert '*' !in s[1..] by {
        assert forall c | c in s[1..] :: c in s;
      }
      BulletsWithoutStar(s[1..]);
    }
  }

  /** Text without a backtick is not touched by the backtick pass. */
  lemma {:induction false} BackticksWithout(s: string)
    requires '`' !in s
    ensures RemoveBackticks(s) == s
    decreases |s|
  {
    if |s| > 0 {
      assert '`' !in s[1..] by {
        assert forall c | c in s[1..] :: c in s;
      }
      BackticksWithout(s[1..]);
    }
  }

  /** Whitespace that is already single plain spaces is left as it is by
      the run-collapsing pass, for either character class. */
  lemma {:induction false} CollapseSingleSpaces(s: string, p: char -> bool)
    requires forall i | 0 <= i < |s| :: p(s[i]) ==> s[i] == ' '
    requires forall i | 0 <= i < |s| - 1 :: !(p(s[i]) && p(s[i + 1]))
    ensures CollapseRuns(s, p) == s
    decreases |s|
  {
    if |s| > 0 {
      var t := s[1..];
      assert forall i | 0 <= i < |t| :: t[i] == s[i + 1];
      CollapseSingleSpaces(t, p);
      FirstAndRest(s);
      if p(s[0]) {
        CollapseLoneMember(s, p);
      } else {
        CollapseOther(s, p);
      }
    }
  }

  lemma Associative(a: string, b: string, c: string)
    ensures a + (b + c) == a + b + c
  {
  }

  lemma DropFromConcat(x: string, y: string, k: nat)
    requires k <= |x|
    ensures (x + y)[k..] == x[k..] + y
  {
  }

  lemma FirstAndRest(s: string)
    requires |s| > 0
    ensures s == [s[0]] + s[1..]
  {
  }

  /** A class character followed by none is replaced by one space. */
  lemma CollapseLoneMember(s: string, p: char -> bool)
    requires |s| > 0 && p(s[0]) && (|s| == 1 || !p(s[1]))
    ensures CollapseRuns(s, p) == [' '] + CollapseRuns(s[1..], p)
  {
    var t := s[1..];
    assert RunLength(s, p) == 1 by {
      assert RunLength(s, p) == 1 + RunLength(t, p);
      assert |t| == 0 || t[0] == s[1];
    }
  }

  /** A character outside the class is copied. */
  lemma CollapseOther(s: string, p: char -> bool)
    requires |s| > 0 && !p(s[0])
    ensures CollapseRuns(s, p) == [s[0]] + CollapseRuns(s[1..], p)
  {
  }

  /** Plain text, with no markdown characters and only single spaces
      between words, is spoken exactly as written. */
  lemma PlainTextSpokenAsIs(s: string)
    requires '*' !in s && '`' !in s
    requires forall i | 0 <= i < |s| :: IsSpace(s[i]) ==> s[i] == ' '
    requires forall i | 0 <= i < |s| - 1 :: !(IsSpace(s[i]) && IsSpace(s[i + 1]))
    requires |s| > 0 ==> !IsSpace(s[0]) && !IsSpace(s[|s| - 1])
    ensures SpeechText(s) == s
  {
    BulletsWithoutStar(s);
    BackticksWithout(s);
    assert forall i | 0 <= i < |s| :: !IsNewline(s[i]);
    CollapseSingleSpaces(s, IsNewline);
    CollapseSingleSpaces(s, IsSpace);
    TrimOfTrimmed(s);
  }

  // ---------------------------------------------------------------------
  // Order and separation laws of the speech cleanup

  /** A run of the class ends where it ends in `x`: inside `x`, or at its
      end when `y` does not continue it. */
  lemma RunLengthAppend(x: string, y: string, p: char -> bool)
    requires RunLength(x, p) < |x| || |y| == 0 || !p(y[0])
    ensures RunLength(x + y, p) == RunLength(x, p)
  {
    assert forall i | 0 <= i < |x| :: (x + y)[i] == x[i];
    assert |y| > 0 ==> (x + y)[|x|] == y[0];
  }

  /** The backtick pass works character by character, so it keeps the
      order of the text: it distributes over concatenation. */
  lemma {:induction false} BackticksAppend(x: string, y: string)
    ensures RemoveBackticks(x + y) == RemoveBackticks(x) + RemoveBackticks(y)
    decreases |x|
  {
    if |x| == 0 {
      assert x + y == y;
    } else {
      assert (x + y)[1..] == x[1..] + y;
      BackticksAppend(x[1..], y);
    }
  }

  /** The bullet pass keeps the order of the text, and whitespace that does
      not follow a star stays: text that ends in neither a star nor
      whitespace is cleaned independently of what follows it. */
  lemma {:induction false} BulletsAppend(x: string, y: string)
    requires |x| > 0 ==> x[|x| - 1] != '*' && !IsSpace(x[|x| - 1])
    ensures RemoveBullets(x + y) == RemoveBullets(x) + RemoveBullets(y)
    decreases |x|
  {
    if |x| == 0 {
      assert x + y == y;
    } else if |x| >= 2 && x[0] == '*' && IsSpace(x[1]) {
      var n := BulletSeam(x, y);
      var rest := x[1 + n..];
      assert rest[|rest| - 1] == x[|x| - 1];
      BulletsAppend(rest, y);
    } else {
      KeepSeam(x, y);
      var rest := x[1..];
      assert |rest| > 0 ==> rest[|rest| - 1] == x[|x| - 1];
      BulletsAppend(rest, y);
      Associative([x[0]], RemoveBullets(rest), RemoveBullets(y));
    }
  }

  /** A bullet at the front of `x` is removed from `x + y` up to the same
      place as from `x`. */
  lemma BulletSeam(x: string, y: string) returns (n: nat)
    requires |x| >= 2 && x[0] == '*' && IsSpace(x[1]) && !IsSpace(x[|x| - 1])
    ensures n == RunLength(x[1..], IsSpace) && 1 + n < |x|
    ensures RemoveBullets(x) == RemoveBullets(x[1 + n..])
    ensures RemoveBullets(x + y) == RemoveBullets(x[1 + n..] + y)
  {
    n := RunLength(x[1..], IsSpace);
    assert x[1..][|x| - 2] == x[|x| - 1];
    BulletUnfold(x);
    DropFromConcat(x, y, 1);
    RunLengthAppend(x[1..], y, IsSpace);
    assert (x + y)[0] == '*' && (x + y)[1] == x[1];
    BulletUnfold(x + y);
    assert RunLength((x + y)[1..], IsSpace) == n;
    DropFromConcat(x, y, 1 + n);
  }

  /** A star followed by whitespace is removed with the whole run. */
  lemma BulletUnfold(s: string)
    requires |s| >= 2 && s[0] == '*' && IsSpace(s[1])
    ensures RemoveBullets(s) == RemoveBullets(s[1 + RunLength(s[1..], IsSpace)..])
  {
  }

  /** A first character of `x` that does not start a bullet is kept in
      `x + y` as in `x`. */
  lemma KeepSeam(x: string, y: string)
    requires |x| > 0 && !(|x| >= 2 && x[0] == '*' && IsSpace(x[1]))
    requires x[|x| - 1] != '*'
    ensures RemoveBullets(x) == [x[0]] + RemoveBullets(x[1..])
    ensures RemoveBullets(x + y) == [x[0]] + RemoveBullets(x[1..] + y)
  {
    DropFromConcat(x, y, 1);
    assert |x| >= 2 ==> (x + y)[1] == x[1];
  }

  /** A whole run of the class becomes one space. */
  lemma CollapseWholeRun(run: string, p: char -> bool)
    requires |run| > 0 && forall i | 0 <= i < |run| :: p(run[i])
    ensures CollapseRuns(run, p) == " "
  {
    assert RunLength(run, p) == |run|;
    assert run[|run|..] == [];
  }

  /** Unless a run of the class spans the seam, collapsing runs keeps the
      order of the text: it distributes over concatenation. */
  lemma {:induction false} CollapseAppend(x: string, y: string, p: char -> bool)
    requires |x| == 0 || |y| == 0 || !p(x[|x| - 1]) || !p(y[0])
    ensures CollapseRuns(x + y, p) == CollapseRuns(x, p) + CollapseRuns(y, p)
    decreases |x|
  {
    var s := x + y;
    if |x| == 0 {
      assert s == y;
    } else if |y| == 0 {
      assert s == x;
    } else if p(x[0]) {
      var k := RunLength(x, p);
      assert k == |x| ==> p(x[|x| - 1]);
      RunLengthAppend(x, y, p);
      DropFromConcat(x, y, k);
      CollapseAppend(x[k..], y, p);
      Associative([' '], CollapseRuns(x[k..], p), CollapseRuns(y, p));
    } else {
      DropFromConcat(x, y, 1);
      CollapseAppend(x[1..], y, p);
      Associative([x[0]], CollapseRuns(x[1..], p), CollapseRuns(y, p));
    }
  }

  /** A last character outside the class stays last. */
  lemma CollapseLast(x: string, c: char, p: char -> bool)
    requires !p(c)
    ensures CollapseRuns(x + [c], p) == CollapseRuns(x, p) + [c]
  {
    CollapseAppend(x, [c], p);
    assert [c][1..] == [];
  }

  /** Both collapsing passes. */
  function Spaced(s: string): string {
    CollapseRuns(CollapseRuns(s, IsNewline), IsSpace)
  }

  /** Text with no star and no backtick is spoken as its collapsed text,
      trimmed. */
  lemma SpeechOfPlain(s: string)
    requires '*' !in s && '`' !in s
    ensures SpeechText(s) == Trim(Spaced(s))
  {
    BulletsWithoutStar(s);
    BackticksWithout(s);
  }

  /** A first character outside the class stays first. */
  lemma CollapseKeepsFirst(s: string, p: char -> bool)
    requires |s| > 0 && !p(s[0])
    ensures |CollapseRuns(s, p)| > 0 && CollapseRuns(s, p)[0] == s[0]
  {
  }

  /** A last character outside the class stays last. */
  lemma CollapseKeepsLast(s: string, p: char -> bool)
    requires |s| > 0 && !p(s[|s| - 1])
    ensures |CollapseRuns(s, p)| > 0
    ensures CollapseRuns(s, p)[|CollapseRuns(s, p)| - 1] == s[|s| - 1]
  {
    var c := s[|s| - 1];
    assert s == s[..|s| - 1] + [c];
    CollapseLast(s[..|s| - 1], c, p);
  }

  /** Collapsing a text in three parts, where no run of the class spans
      either seam, collapses each part on its own. */
  lemma CollapseThree(x: string, w: string, y: string, p: char -> bool)
    requires |x| == 0 || !p(x[|x| - 1])
    requires |y| == 0 || !p(y[0])
    ensures CollapseRuns(x + w + y, p)
         == CollapseRuns(x, p) + CollapseRuns(w, p) + CollapseRuns(y, p)
  {
    Associative(x, w, y);
    CollapseAppend(x, w + y, p);
    CollapseAppend(w, y, p);
    Associative(CollapseRuns(x, p), CollapseRuns(w, p), CollapseRuns(y, p));
  }

  /** The line-feed pass turns whitespace into whitespace, and only empty
      whitespace into nothing. */
  lemma NewlinesOfSpace(w: string)
    requires AllSpace(w)
    ensures AllSpace(CollapseRuns(w, IsNewline))
    ensures |CollapseRuns(w, IsNewline)| == 0 <==> |w| == 0
  {
    RunsCollapsedBy(w, IsNewline);
    var r := CollapseRuns(w, IsNewline);
    assert forall i | 0 <= i < |r| :: r[i] in r;
    assert forall i | 0 <= i < |w| :: w[i] in w ==> IsSpace(w[i]);
  }

  /** Both passes keep a first and a last character that is not whitespace. */
  lemma SpacedEnds(s: string)
    requires |s| > 0
    ensures !IsSpace(s[0]) ==> |Spaced(s)| > 0 && Spaced(s)[0] == s[0]
    ensures !IsSpace(s[|s| - 1]) ==>
      |Spaced(s)| > 0 && Spaced(s)[|Spaced(s)| - 1] == s[|s| - 1]
  {
    var lines := CollapseRuns(s, IsNewline);
    if !IsSpace(s[0]) {
      CollapseKeepsFirst(s, IsNewline);
      CollapseKeepsFirst(lines, IsSpace);
    }
    if !IsSpace(s[|s| - 1]) {
      CollapseKeepsLast(s, IsNewline);
      CollapseKeepsLast(lines, IsSpace);
    }
  }

  /** Whitespace between text that ends and text that starts with another
      character becomes a single space; the texts on either side are
      collapsed on their own. */
  lemma SpacedJoin(x: string, w: string, y: string)
    requires |x| == 0 || !IsSpace(x[|x| - 1])
    requires AllSpace(w)
    requires |y| == 0 || !IsSpace(y[0])
    ensures Spaced(x + w + y) == Spaced(x) + (if |w| == 0 then [] else " ") + Spaced(y)
  {
    assert |x| > 0 ==> !IsNewline(x[|x| - 1]);
    assert |y| > 0 ==> !IsNewline(y[0]);
    CollapseThree(x, w, y, IsNewline);
    var xs, ws, ys := CollapseRuns(x, IsNewline), CollapseRuns(w, IsNewline), CollapseRuns(y, IsNewline);
    if |x| > 0 {
      CollapseKeepsLast(x, IsNewline);
    }
    if |y| > 0 {
      CollapseKeepsFirst(y, IsNewline);
    }
    NewlinesOfSpace(w);
    CollapseThree(xs, ws, ys, IsSpace);
    if |w| > 0 {
      CollapseWholeRun(ws, IsSpace);
    }
  }

  /** Text that is not all whitespace, less its trailing whitespace. */
  lemma SplitTrailing(a: string) returns (body: string, w: string)
    requires !AllSpace(a)
    ensures a == body + w && AllSpace(w)
    ensures |body| > 0 && !IsSpace(body[|body| - 1])
  {
    var n := TrailingSpaces(a);
    body, w := a[..|a| - n], a[|a| - n..];
    assert a == body + w;
  }

  /** Text that is not all whitespace, less its leading whitespace. */
  lemma SplitLeading(b: string) returns (w: string, body: string)
    requires !AllSpace(b)
    ensures b == w + body && AllSpace(w)
    ensures |body| > 0 && !IsSpace(body[0])
  {
    var n := LeadingSpaces(b);
    w, body := b[..n], b[n..];
    assert b == w + body;
  }

  /** Whitespace followed by a space and more whitespace is whitespace. */
  lemma SpacesAroundSpace(w1: string, w2: string)
    requires AllSpace(w1) && AllSpace(w2)
    ensures AllSpace(w1 + " " + w2)
  {
    var m := w1 + " " + w2;
    assert forall i | 0 <= i < |m| ::
      m[i] == (if i < |w1| then w1[i] else if i == |w1| then ' ' else w2[i - |w1| - 1]);
  }

  /** Trailing whitespace is gone after collapsing and trimming. */
  lemma SpacedTrimTrailing(body: string, w: string)
    requires |body| > 0 && !IsSpace(body[|body| - 1]) && AllSpace(w)
    ensures Trim(Spaced(body + w)) == Trim(Spaced(body))
  {
    assert body + w + [] == body + w;
    SpacedJoin(body, w, []);
    assert Spaced([]) == [];
    var sw := if |w| == 0 then [] else " ";
    assert Spaced(body + w) == Spaced(body) + sw;
    TrimDropsTrailing(Spaced(body), sw);
  }

  /** Leading whitespace is gone after collapsing and trimming. */
  lemma SpacedTrimLeading(w: string, body: string)
    requires AllSpace(w) && |body| > 0 && !IsSpace(body[0])
    ensures Trim(Spaced(w + body)) == Trim(Spaced(body))
  {
    assert [] + w + body == w + body;
    SpacedJoin([], w, body);
    assert Spaced([]) == [];
    var sw := if |w| == 0 then [] else " ";
    assert Spaced(w + body) == sw + Spaced(body);
    TrimDropsLeading(sw, Spaced(body));
  }

  /** Collapsing and trimming two texts that are not all whitespace, joined
      by one space, collapses and trims each on its own. */
  lemma SpacedTrimJoin(a: string, b: string)
    requires !AllSpace(a) && !AllSpace(b)
    ensures Trim(Spaced(a + " " + b)) == Trim(Spaced(a)) + " " + Trim(Spaced(b))
  {
    var a1, w1 := SplitTrailing(a);
    var w2, b1 := SplitLeading(b);
    SpacesAroundSpace(w1, w2);
    assert a + " " + b == a1 + (w1 + " " + w2) + b1;
    SpacedJoin(a1, w1 + " " + w2, b1);
    SpacedEnds(a1);
    SpacedEnds(b1);
    TrimJoin(Spaced(a1), Spaced(b1));
    SpacedTrimTrailing(a1, w1);
    SpacedTrimLeading(w2, b1);
  }

  /** Two pieces of plain text joined by a space are spoken as the two
      pieces with one space between them: the cleanup keeps words apart and
      in order. */
  lemma SpeechJoin(a: string, b: string)
    requires '*' !in a && '*' !in b && '`' !in a && '`' !in b
    requires !AllSpace(a) && !AllSpace(b)
    ensures SpeechText(a + " " + b) == SpeechText(a) + " " + SpeechText(b)
  {
    var m := a + " " + b;
    assert '*' !in m && '`' !in m;
    SpeechOfPlain(a);
    SpeechOfPlain(b);
    SpeechOfPlain(m);
    SpacedTrimJoin(a, b);
  }
}
