/**
 * The chat side: picking the command addressed to the bot out of the real-time event
 * stream, splitting off the mention, and deciding what a command asks for.
 */
module Assistant {
  import opened Results
  import opened Text

  // ---------------------------------------------------------------------------
  // `parse_direct_mention`: MENTION_REGEX `^<@(|[WU].+?)>(.*)`, then `strip()`

  /**
   * The `.+?` after `W`/`U` and the `>` that ends it: the first `>` at index j or later
   * such that everything from index 3 up to it is free of line breaks.
   */
  function FindClose(text: string, j: nat): (r: Option<nat>)
    requires 1 <= j
    ensures r.Some? ==> j <= r.value < |text| && text[r.value] == '>' && NewlineFree(text, j - 1, r.value)
    ensures r.Some? ==> forall k :: j <= k < r.value ==> text[k] != '>'
    ensures r.None? ==> forall k :: j <= k < |text| && NewlineFree(text, j - 1, k) ==> text[k] != '>'
    decreases |text| - j
  {
    if j >= |text| then None
    else if text[j - 1] == '\n' then None
    else if text[j] == '>' then Some(j)
    else FindClose(text, j + 1)
  }

  /**
   * `^<@(|[WU].+?)>` matches: either `<@>`, or `<@` and `W` or `U`, then at least one more
   * character and a `>`, with no line break in between.
   */
  predicate MentionMatches(text: string) {
    StartsWith(text, "<@>") ||
    (StartsWith(text, "<@") && |text| > 2 && (text[2] == 'W' || text[2] == 'U') &&
     exists j :: 4 <= j < |text| && text[j] == '>' && NewlineFree(text, 3, j))
  }

  /** The mentioned id and the index where the message after `>` begins, or None without a mention. */
  function MentionAt(text: string): (r: Option<(string, nat)>)
    ensures r.None? <==> !MentionMatches(text)
    ensures r.Some? ==> 3 <= r.value.1 <= |text| && StartsWith(text, "<@" + r.value.0 + ">")
    ensures r.Some? ==> r.value.1 == |r.value.0| + 3
    ensures r.Some? ==> r.value.0 == [] || r.value.0[0] == 'W' || r.value.0[0] == 'U'
    ensures r.Some? && r.value.0 != [] ==>
      |r.value.0| >= 2 && NewlineFree(text, 3, r.value.1 - 1) && forall k :: 4 <= k < r.value.1 - 1 ==> text[k] != '>'
  {
    if !StartsWith(text, "<@") || |text| < 3 then None
    else if text[2] == '>' then
      assert text[..3] == "<@" + "" + ">";
      Some(("", 3))
    else if text[2] != 'W' && text[2] != 'U' then None
    else
      match FindClose(text, 4)
      case None => None
      case Some(j) =>
        assert text[..j + 1] == "<@" + text[2..j] + ">";
        Some((text[2..j], j + 1))
  }

  /** `parse_direct_mention`: the mentioned id and the stripped rest of the line, or None for `(None, None)`. */
  function ParseDirectMention(text: string): Option<(string, string)> {
    match MentionAt(text)
    case None => None
    case Some((id, rest)) => Some((id, Strip(Line(text[rest..]))))
  }

  /**
   * Only a text opening with `<@` carries a mention; its id is empty or starts with `W`
   * or `U`, the text opens with `<@id>`, and the message has no whitespace at either end.
   */
  lemma MentionShape(text: string)
    ensures ParseDirectMention(text).None? <==> !MentionMatches(text)
    ensures !StartsWith(text, "<@") ==> ParseDirectMention(text).None?
    ensures ParseDirectMention(text).Some? ==> var (id, message) := ParseDirectMention(text).value;
      StartsWith(text, "<@" + id + ">") && (id == [] || id[0] == 'W' || id[0] == 'U') &&
      (message != [] ==> !IsSpace(message[0]) && !IsSpace(message[|message| - 1]))
  {
    match MentionAt(text)
    case None =>
    case Some((id, rest)) =>
      var message := Strip(Line(text[rest..]));
      assert ParseDirectMention(text) == Some((id, message));
  }

  lemma FindCloseFirst(text: string, j: nat, q: nat)
    requires 1 <= j <= q < |text| && text[q] == '>' && NewlineFree(text, j - 1, q)
    requires forall k :: j <= k < q ==> text[k] != '>'
    ensures FindClose(text, j) == Some(q)
    decreases q - j
  {
    if j < q {
      FindCloseFirst(text, j + 1, q);
    }
  }

  /** Mentioning `<@id>` ahead of a one-line message splits back into the id and the stripped message. */
  lemma {:induction false} MentionSplits(id: string, message: string)
    requires |id| >= 2 && (id[0] == 'W' || id[0] == 'U')
    requires forall k :: 1 <= k < |id| ==> id[k] != '>' && id[k] != '\n'
    requires NewlineFree(message, 0, |message|)
    ensures ParseDirectMention("<@" + id + ">" + message) == Some((id, Strip(message)))
  {
    var text := "<@" + id + ">" + message;
    var j := 2 + |id|;
    assert text[..2] == "<@";
    assert text[2] == id[0];
    assert text[j] == '>';
    forall k | 3 <= k < j ensures text[k] != '>' && text[k] != '\n' {
      assert text[k] == id[k - 2];
    }
    FindCloseFirst(text, 4, j);
    assert text[2..j] == id;
    assert MentionAt(text) == Some((id, j + 1));
    assert text[j + 1..] == message;
    LineOfNewlineFree(message);
  }

  /**
   * `<@W>hi` carries no mention: after `W` the `.+?` finds no closing `>`.
   * The literal comes in as a parameter pinned by `requires`, which keeps the solver's work on it small.
   */
  lemma ShortMentionRejected(text: string)
    requires text == "<@W>hi"
    ensures ParseDirectMention(text).None?
  {
    MentionShape(text);
    assert text[4] == 'h' && text[5] == 'i';
  }

  /**
   * A line break before the closing `>` means no mention: `<@W\n1>x` gives none.
   * The literal comes in as a parameter pinned by `requires`, which keeps the solver's work on it small.
   */
  lemma BrokenMentionRejected(text: string)
    requires text == "<@W\n1>x"
    ensures ParseDirectMention(text).None?
  {
    MentionShape(text);
    assert text[3] == '\n' && text[4] == '1' && text[6] == 'x';
  }

  /** A message addressing `<@>` splits into the empty id and the stripped message. */
  lemma EmptyMentionSplits(message: string)
    requires NewlineFree(message, 0, |message|)
    ensures ParseDirectMention("<@>" + message) == Some(("", Strip(message)))
  {
    var text := "<@>" + message;
    assert text[3..] == message;
    LineOfNewlineFree(message);
  }

  // ---------------------------------------------------------------------------
  // `parse_bot_commands`

  /** One real-time event: `type`, whether it has a `subtype` key, `text`, `channel`, `user`. */
  datatype Event = Event(kind: string, hasSubtype: bool, text: string, channel: string, user: string)

  /** The `(message, channel, user)` triple of a command addressed to the bot. */
  datatype BotCommand = BotCommand(message: string, channel: string, user: string)

  /** A plain message whose direct mention is the bot. */
  predicate AddressedTo(e: Event, botId: string) {
    e.kind == "message" && !e.hasSubtype &&
    MentionAt(e.text).Some? && MentionAt(e.text).value.0 == botId
  }

  /** Event k is the first one addressed to the bot. */
  predicate FirstAddressed(events: seq<Event>, botId: string, k: int) {
    && 0 <= k < |events|
    && AddressedTo(events[k], botId)
    && forall j :: 0 <= j < k ==> !AddressedTo(events[j], botId)
  }

  /** The command an addressed event carries: the message after the mention, the channel, the user. */
  function CommandOf(e: Event): BotCommand
    requires ParseDirectMention(e.text).Some?
  {
    BotCommand(ParseDirectMention(e.text).value.1, e.channel, e.user)
  }

  /** `parse_bot_commands`: the first event addressed to the bot, or None for `(None, None, None)`. */
  method ParseBotCommands(events: seq<Event>, botId: string) returns (r: Option<BotCommand>)
    ensures r.None? <==> forall k :: 0 <= k < |events| ==> !AddressedTo(events[k], botId)
    ensures r.Some? ==> exists k :: FirstAddressed(events, botId, k) && r.value == CommandOf(events[k])
  {
    for i := 0 to |events|
      invariant forall j :: 0 <= j < i ==> !AddressedTo(events[j], botId)
    {
      var event := events[i];
      if event.kind == "message" && !event.hasSubtype {
        var mention := ParseDirectMention(event.text);
        if mention.Some? && mention.value.0 == botId {
          assert FirstAddressed(events, botId, i);
          return Some(CommandOf(event));
        }
      }
      assert !AddressedTo(event, botId);
    }
    return None;
  }

  // ---------------------------------------------------------------------------
  // The name pattern of `handle_command`: `^.*?is\s(.*?)(\snext|\son).*?`

  /** `is` and a whitespace character start at index p. */
  predicate IsAt(command: string, p: nat) {
    p + 3 <= |command| && command[p] == 'i' && command[p + 1] == 's' && IsSpace(command[p + 2])
  }

  /** `\snext` or `\son` starts at index q. */
  predicate StopAt(command: string, q: nat) {
    q < |command| && IsSpace(command[q]) &&
    (StartsWith(command[q + 1..], "next") || StartsWith(command[q + 1..], "on"))
  }

  /** The lazy group `(.*?)` from index q: the first stop it can reach without a line break. */
  function FindStop(command: string, q: nat): (r: Option<nat>)
    requires q <= |command|
    ensures r.Some? ==> q <= r.value < |command| && StopAt(command, r.value) && NewlineFree(command, q, r.value)
    ensures r.Some? ==> forall k :: q <= k < r.value ==> !StopAt(command, k)
    ensures r.None? ==> forall k :: q <= k < |command| && NewlineFree(command, q, k) ==> !StopAt(command, k)
    decreases |command| - q
  {
    if q == |command| then None
    else if StopAt(command, q) then Some(q)
    else if command[q] == '\n' then None
    else FindStop(command, q + 1)
  }

  /** An `is\s` starts at a and the lazy group after it reaches a stop. */
  predicate NameStartAt(command: string, a: nat) {
    IsAt(command, a) && FindStop(command, a + 3).Some?
  }

  /**
   * The lazy `.*?` in front of `is\s`, from index p on: the first index, reachable
   * without a line break, from which the rest of the pattern matches.
   */
  function FindNameStart(command: string, p: nat): (r: Option<nat>)
    requires p <= |command|
    ensures r.Some? ==> p <= r.value < |command| && NameStartAt(command, r.value) && NewlineFree(command, p, r.value)
    ensures r.Some? ==> forall a :: p <= a < r.value ==> !NameStartAt(command, a)
    ensures r.None? ==> forall a :: p <= a < |command| && NewlineFree(command, p, a) ==> !NameStartAt(command, a)
    decreases |command| - p
  {
    if p == |command| then None
    else if NameStartAt(command, p) then Some(p)
    else if command[p] == '\n' then None
    else FindNameStart(command, p + 1)
  }

  /** a is where the match of the name pattern puts its `is\s`. */
  predicate FirstNameStart(command: string, a: nat) {
    a < |command| && NewlineFree(command, 0, a) && NameStartAt(command, a) &&
    forall b :: 0 <= b < a ==> !NameStartAt(command, b)
  }

  /**
   * `re.match('^.*?is\s(.*?)(\snext|\son).*?', command).group(1)`, None where the match fails:
   * the group runs from the first usable `is\s` to the first stop after it.
   */
  function EngineerName(command: string): (r: Option<string>)
    ensures r.None? <==> forall a :: 0 <= a < |command| && NewlineFree(command, 0, a) ==> !NameStartAt(command, a)
    ensures r.Some? ==> exists a: nat :: FirstNameStart(command, a) && r.value == command[a + 3..FindStop(command, a + 3).value]
  {
    match FindNameStart(command, 0)
    case None => None
    case Some(a) =>
      assert FirstNameStart(command, a);
      Some(command[a + 3..FindStop(command, a + 3).value])
  }

  lemma StopAtShift(command: string, m: nat, k: nat)
    requires m <= k <= |command|
    ensures StopAt(command, k) <==> StopAt(command[m..], k - m)
  {
    if k < |command| {
      assert command[k + 1..] == command[m..][k - m + 1..];
    }
  }

  lemma FindStopFirst(command: string, from: nat, q: nat)
    requires from <= q && StopAt(command, q) && NewlineFree(command, from, q)
    requires forall k :: from <= k < q ==> !StopAt(command, k)
    ensures FindStop(command, from) == Some(q)
  {
  }

  /** The stop search from index m of a text depends only on the text from m on. */
  lemma FindStopShift(command: string, m: nat, q: nat)
    requires m <= |command|
    requires StopAt(command[m..], q) && NewlineFree(command[m..], 0, q)
    requires forall k :: 0 <= k < q ==> !StopAt(command[m..], k)
    ensures FindStop(command, m) == Some(m + q)
  {
    var rest := command[m..];
    StopAtShift(command, m, m + q);
    forall k | m <= k < m + q ensures !StopAt(command, k) {
      StopAtShift(command, m, k);
    }
    assert NewlineFree(command, m, m + q) by {
      forall k | m <= k < m + q ensures command[k] != '\n' {
        assert command[k] == rest[k - m];
      }
    }
    FindStopFirst(command, m, m + q);
  }

  /** The name search passes over an index where no `is\s` starts and the line goes on. */
  lemma FindNameSkips(command: string, p: nat)
    requires p < |command| && !IsAt(command, p) && command[p] != '\n'
    ensures FindNameStart(command, p) == FindNameStart(command, p + 1)
  {
  }

  lemma FindNameAt(command: string, p: nat)
    requires p <= |command| && NameStartAt(command, p)
    ensures FindNameStart(command, p) == Some(p)
  {
  }

  lemma WhenIsPrefix(rest: string, command: string, n: nat)
    requires command == "when is " + rest && n <= |rest|
    ensures command[8..] == rest && command[8..8 + n] == rest[..n]
    ensures command[0] == 'w' && command[1] == 'h' && command[2] == 'e' && command[3] == 'n' && command[4] == ' '
    ensures command[5] == 'i' && command[6] == 's' && command[7] == ' '
  {
    assert command[8..] == rest;
    assert command[8..8 + n] == command[8..][..n];
  }

  /**
   * After `when is `, the name runs up to the first whitespace that starts `next` or `on`,
   * even inside a word.
   */
  lemma {:induction false} NamedLookupStopsAtFirst(rest: string, q: nat)
    requires StopAt(rest, q) && NewlineFree(rest, 0, q)
    requires forall k :: 0 <= k < q ==> !StopAt(rest, k)
    ensures EngineerName("when is " + rest) == Some(rest[..q])
  {
    var command := "when is " + rest;
    WhenIsPrefix(rest, command, q);
    FindStopShift(command, 8, q);
    FindNameAt(command, 5);
    FindNameSkips(command, 4);
    FindNameSkips(command, 3);
    FindNameSkips(command, 2);
    FindNameSkips(command, 1);
    FindNameSkips(command, 0);
  }

  /** In `when is <name><tail>`, with the tail opening ` on` or ` next`, the whole name is read back. */
  lemma NamedLookupReadsName(name: string, tail: string)
    requires NewlineFree(name, 0, |name|) && StopAt(tail, 0)
    requires forall k :: 0 <= k < |name| ==> !StopAt(name + tail, k)
    ensures EngineerName("when is " + name + tail) == Some(name)
  {
    var rest := name + tail;
    assert "when is " + name + tail == "when is " + rest;
    assert rest[|name|..] == tail;
    StopAtShift(rest, |name|, |name|);
    assert rest[..|name|] == name;
    NamedLookupStopsAtFirst(rest, |name|);
  }

  /**
   * `when is Bill Gates on call` asks after `Bill Gates`.
   * The literal comes in as a parameter pinned by `requires`, which keeps the solver's work on it small.
   */
  lemma BillGatesIsRead(name: string, tail: string)
    requires name == "Bill Gates" && tail == " on call"
    ensures EngineerName("when is " + name + tail) == Some("Bill Gates")
  {
    var rest := name + tail;
    assert rest[11..][..2] == "on";
    assert !StopAt(rest, 4) by { assert rest[5..][..2] == "Ga"; assert rest[5..][..4] == "Gate"; }
    NamedLookupReadsName(name, tail);
  }

  /**
   * `when is Ron onion on call` asks after `Ron`: the ` on` of ` onion` ends the name.
   * The literal comes in as a parameter pinned by `requires`, which keeps the solver's work on it small.
   */
  lemma NameCutAtOnion(rest: string)
    requires rest == "Ron onion on call"
    ensures EngineerName("when is " + rest) == Some("Ron")
  {
    assert StopAt(rest, 3) by { assert rest[4..][..2] == "on"; }
    assert rest[..3] == "Ron";
    NamedLookupStopsAtFirst(rest, 3);
  }

  // ---------------------------------------------------------------------------
  // `handle_command`

  /** What a command asks for. */
  datatype Action =
    | LookupSelf                // `lookup_user_name`, then `when_is_on_call` with the name found
    | LookupNamed(name: string) // `when_is_on_call(name)`
    | NameNotFound              // the name pattern does not match and `.group` raises
    | LookupNext                // `next_on_call`
    | LookupNow                 // `who_is_on_call_now`
    | TellTime                  // the clock reply
    | Greet                     // `Hello <@user>!`
    | Shrug                     // the shrug reply
    | NoReply                   // `response` stays None and the default message is sent

  /** The decision chain of `handle_command`: case-sensitive prefix tests, then substring tests. */
  function Classify(command: string): Action {
    if StartsWith(command, "when") then
      if Contains(command, "am i") then LookupSelf
      else if Contains(command, "on call") then
        match EngineerName(command)
        case None => NameNotFound
        case Some(name) => LookupNamed(name)
      else Shrug
    else if StartsWith(command, "who") then
      if Contains(command, "next") then LookupNext
      else if Contains(command, "on call") then LookupNow
      else Shrug
    else if StartsWith(command, "what") then
      if Contains(command, "time is it") then TellTime else Shrug
    else if StartsWith(command, "hello") then Greet
    else if StartsWith(command, "but") then Shrug
    else if StartsWith(command, "why") then Shrug
    else NoReply
  }

  /** The keywords a command may open with. */
  const Keywords: seq<string> := ["when", "who", "what", "hello", "but", "why"]

  /** No keyword is a prefix of another, so a command opens with at most one of them. */
  lemma AtMostOneKeyword(command: string, i: nat, j: nat)
    requires i < |Keywords| && j < |Keywords|
    requires StartsWith(command, Keywords[i]) && StartsWith(command, Keywords[j])
    ensures i == j
  {
    var a, b := Keywords[i], Keywords[j];
    assert a[0] == command[0] == b[0];
    assert a[1] == command[1] == b[1];
    if |a| > 2 && |b| > 2 {
      assert a[2] == command[2] == b[2];
    }
  }

  /** Only a command opening with a keyword gets anything but the default message. */
  lemma DefaultUnlessKeyword(command: string)
    ensures Classify(command) == NoReply <==> forall i :: 0 <= i < |Keywords| ==> !StartsWith(command, Keywords[i])
  {
    if Classify(command) != NoReply {
      assert exists i :: 0 <= i < |Keywords| && StartsWith(command, Keywords[i]) by {
        if StartsWith(command, "when") { assert Keywords[0] == "when"; }
        else if StartsWith(command, "who") { assert Keywords[1] == "who"; }
        else if StartsWith(command, "what") { assert Keywords[2] == "what"; }
        else if StartsWith(command, "hello") { assert Keywords[3] == "hello"; }
        else if StartsWith(command, "but") { assert Keywords[4] == "but"; }
        else { assert Keywords[5] == "why"; }
      }
    }
  }

  /** Matching is case-sensitive: a command opening with a capital letter gets the default message. */
  lemma CapitalisedCommandUnrecognised(command: string)
    requires command != [] && IsUpper(command[0])
    ensures Classify(command) == NoReply
  {
    DefaultUnlessKeyword(command);
  }

  /** `when` commands: `am i` wins over `on call`; any other `when` command gets the shrug. */
  lemma WhenCommands(command: string)
    requires StartsWith(command, "when")
    ensures Contains(command, "am i") ==> Classify(command) == LookupSelf
    ensures !Contains(command, "am i") && Contains(command, "on call") ==>
      Classify(command) == if EngineerName(command).Some? then LookupNamed(EngineerName(command).value) else NameNotFound
    ensures !Contains(command, "am i") && !Contains(command, "on call") ==> Classify(command) == Shrug
  {
  }

  /** `who` commands: `next` wins over `on call`; any other `who` command gets the shrug. */
  lemma WhoCommands(command: string)
    requires StartsWith(command, "who")
    ensures Contains(command, "next") ==> Classify(command) == LookupNext
    ensures !Contains(command, "next") && Contains(command, "on call") ==> Classify(command) == LookupNow
    ensures !Contains(command, "next") && !Contains(command, "on call") ==> Classify(command) == Shrug
  {
    if StartsWith(command, "when") {
      AtMostOneKeyword(command, 0, 1);
      assert false;
    }
  }

  /** `what` commands: only `time is it` gets the clock; any other `what` command gets the shrug. */
  lemma WhatCommands(command: string)
    requires StartsWith(command, "what")
    ensures Contains(command, "time is it") ==> Classify(command) == TellTime
    ensures !Contains(command, "time is it") ==> Classify(command) == Shrug
  {
    if StartsWith(command, "who") {
      AtMostOneKeyword(command, 1, 2);
      assert false;
    }
  }

  /** `hello` greets whatever follows; `but` and `why` always get the shrug. */
  lemma OtherCommands(command: string)
    ensures StartsWith(command, "hello") ==> Classify(command) == Greet
    ensures StartsWith(command, "but") || StartsWith(command, "why") ==> Classify(command) == Shrug
  {
    if StartsWith(command, "hello") || StartsWith(command, "but") || StartsWith(command, "why") {
      var i := if StartsWith(command, "hello") then 3 else if StartsWith(command, "but") then 4 else 5;
      if StartsWith(command, "when") { AtMostOneKeyword(command, 0, i); }
      if StartsWith(command, "who") { AtMostOneKeyword(command, 1, i); }
      if StartsWith(command, "what") { AtMostOneKeyword(command, 2, i); }
    }
  }

  /** The fixed texts `handle_command` posts. */
  const ShrugReply: string := "\U{AF}\\_(\U{30C4})_/\U{AF}"
  const DefaultResponse: string :=
    "I'm afraid i don't understand. Try saying hello, or opening a question with when, who or what"

  /** `response or default_response`: what is posted for the response the chain chose. */
  function PostedText(response: Option<string>): (t: string)
    ensures t != []
    ensures response.Some? && response.value != [] ==> t == response.value
    ensures response.None? || response == Some("") ==> t == DefaultResponse
  {
    if response.Some? && response.value != [] then response.value else DefaultResponse
  }

  /** The text posted for an action that needs neither a lookup nor the clock. */
  function CannedText(action: Action, userId: string): (t: Option<string>)
    ensures t.Some? <==> action == Shrug || action == Greet || action == NoReply
    ensures action == NoReply ==> t == Some(DefaultResponse)
    ensures action == Shrug ==> t == Some(ShrugReply)
    ensures action == Greet ==> t == Some("Hello <@" + userId + ">!")
  {
    match action
    case Shrug => Some(PostedText(Some(ShrugReply)))
    case Greet => Some(PostedText(Some("Hello <@" + userId + ">!")))
    case NoReply => Some(PostedText(None))
    case _ => None
  }
}
