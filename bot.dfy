/** The decision logic of the Telegram front end (`src/bot.rs`): the two
    MarkdownV2 escapers and the request gate of `handle_machine_code`.
    Database reads are given as a user record, database writes are returned
    as a list of effects, and the reply is returned instead of being sent. */
module Bot {
  import opened Results
  import opened Text
  import opened Models
  import opened FinalShell
  import opened Configuration

  // ---------------------------------------------------------------------
  // Escaping

  /** `str::replace(c, t)` for a one-character pattern. */
  function Replace(s: string, c: char, t: string): (r: string)
    ensures c !in t ==> c !in r
  {
    if s == [] then [] else (if s[0] == c then t else [s[0]]) + Replace(s[1..], c, t)
  }

  /** The chained `.replace(c, "\\" + c)` calls, one per character of
      `cs`, applied in order. */
  function ReplaceChain(s: string, cs: seq<char>): string
    decreases |cs|
  {
    if cs == [] then s else ReplaceChain(Replace(s, cs[0], ['\\', cs[0]]), cs[1..])
  }

  /** The characters `escape_markdown_v2` prefixes, in the order of its
      calls; backslash comes first. */
  const MarkdownV2Specials: seq<char> :=
    ['\\', '_', '*', '[', ']', '(', ')', '~', '`', '>', '#', '+', '-', '=', '|', '{', '}', '.', '!']

  /** The characters `escape_activation_output` prefixes: the same list
      without the backtick, which keeps code spans click-to-copy. */
  const ActivationSpecials: seq<char> :=
    ['\\', '_', '*', '[', ']', '(', ')', '~', '>', '#', '+', '-', '=', '|', '{', '}', '.', '!']

  /** The same characters as sets. */
  const MarkdownV2Set: set<char> :=
    {'\\', '_', '*', '[', ']', '(', ')', '~', '`', '>', '#', '+', '-', '=', '|', '{', '}', '.', '!'}
  const ActivationSet: set<char> :=
    {'\\', '_', '*', '[', ']', '(', ')', '~', '>', '#', '+', '-', '=', '|', '{', '}', '.', '!'}

  lemma SpecialSets()
    ensures CharSet(MarkdownV2Specials) == MarkdownV2Set
    ensures CharSet(ActivationSpecials) == ActivationSet
  {
    MarkdownV2SetMatches();
    ActivationSetMatches();
  }

  lemma MarkdownV2SetMatches()
    ensures CharSet(MarkdownV2Specials) == MarkdownV2Set
  {
    CharSetMembers(MarkdownV2Specials);
  }

  lemma ActivationSetMatches()
    ensures CharSet(ActivationSpecials) == ActivationSet
  {
    CharSetMembers(ActivationSpecials);
  }

  lemma {:induction false} CharSetMembers(cs: seq<char>)
    ensures forall c :: c in CharSet(cs) <==> c in cs
    decreases |cs|
  {
    if cs != [] {
      CharSetMembers(cs[1..]);
      assert forall c :: c in cs <==> c == cs[0] || c in cs[1..];
    }
  }

  /** The reference definition: one pass that puts a backslash in front of
      every character of `specials` and copies every other character. */
  function Escape(s: string, specials: set<char>): (r: string)
    ensures |r| == |s| + CountIn(s, specials)
  {
    if s == [] then []
    else (if s[0] in specials then ['\\', s[0]] else [s[0]]) + Escape(s[1..], specials)
  }

  /** How many characters of `s` belong to `specials`. */
  function CountIn(s: string, specials: set<char>): nat {
    if s == [] then 0 else (if s[0] in specials then 1 else 0) + CountIn(s[1..], specials)
  }

  /** The characters of a list, as a set. */
  function CharSet(cs: seq<char>): set<char>
    decreases |cs|
  {
    if cs == [] then {} else {cs[0]} + CharSet(cs[1..])
  }

  /** `escape_markdown_v2`: the nineteen chained replacements. */
  function EscapeMarkdownV2(text: string): (r: string)
    ensures r == Escape(text, MarkdownV2Set)
  {
    EscapeChainIsEscape(text, MarkdownV2Specials);
    SpecialSets();
    ReplaceChain(text, MarkdownV2Specials)
  }

  /** `escape_activation_output`: the eighteen chained replacements. */
  function EscapeActivationOutput(text: string): (r: string)
    ensures r == Escape(text, ActivationSet)
  {
    EscapeChainIsEscape(text, ActivationSpecials);
    SpecialSets();
    ReplaceChain(text, ActivationSpecials)
  }

  lemma {:induction false} ReplaceAppend(a: string, b: string, c: char, t: string)
    ensures Replace(a + b, c, t) == Replace(a, c, t) + Replace(b, c, t)
  {
    if a == [] {
      assert a + b == b;
    } else {
      assert (a + b)[0] == a[0];
      assert (a + b)[1..] == a[1..] + b;
      ReplaceAppend(a[1..], b, c, t);
    }
  }

  /** One further replacement on escaped text escapes one more character,
      provided the backslashes already inserted are not themselves the
      character replaced. */
  lemma {:induction false} ReplaceAfterEscape(s: string, specials: set<char>, c: char)
    requires c !in specials
    requires c == '\\' ==> specials == {}
    ensures Replace(Escape(s, specials), c, ['\\', c]) == Escape(s, specials + {c})
  {
    if s != [] {
      var head := if s[0] in specials then ['\\', s[0]] else [s[0]];
      ReplaceAppend(head, Escape(s[1..], specials), c, ['\\', c]);
      ReplaceAfterEscape(s[1..], specials, c);
      if s[0] in specials {
        assert Replace(head, c, ['\\', c]) == head by {
          assert head == [head[0]] + [head[1]];
          ReplaceAppend([head[0]], [head[1]], c, ['\\', c]);
        }
      }
    }
  }

  lemma {:induction false} EscapeNothing(s: string)
    ensures Escape(s, {}) == s
  {
    if s != [] {
      EscapeNothing(s[1..]);
    }
  }

  /** Replacing the characters of `cs` one after another, on text already
      escaped for a set that holds the backslash, escapes them all. */
  lemma {:induction false} ChainAfterEscape(s: string, specials: set<char>, cs: seq<char>)
    requires '\\' in specials
    requires forall i :: 0 <= i < |cs| ==> cs[i] !in specials
    requires forall i, j :: 0 <= i < j < |cs| ==> cs[i] != cs[j]
    ensures ReplaceChain(Escape(s, specials), cs) == Escape(s, specials + CharSet(cs))
    decreases |cs|
  {
    if cs == [] {
      assert specials + CharSet(cs) == specials;
    } else {
      ReplaceAfterEscape(s, specials, cs[0]);
      ChainAfterEscape(s, specials + {cs[0]}, cs[1..]);
      assert specials + {cs[0]} + CharSet(cs[1..]) == specials + CharSet(cs) by {
        assert forall c :: c in cs <==> c == cs[0] || c in cs[1..];
      }
    }
  }

  /** A chain of replacements that starts with the backslash and repeats no
      character is the one-pass escape. */
  lemma EscapeChainIsEscape(s: string, cs: seq<char>)
    requires cs != [] && cs[0] == '\\'
    requires forall i, j :: 0 <= i < j < |cs| ==> cs[i] != cs[j]
    ensures ReplaceChain(s, cs) == Escape(s, CharSet(cs))
  {
    EscapeNothing(s);
    ReplaceAfterEscape(s, {}, '\\');
    assert {} + {'\\'} == {'\\'};
    assert forall i :: 0 <= i < |cs[1..]| ==> cs[1..][i] != '\\' by {
      forall i | 0 <= i < |cs[1..]| ensures cs[1..][i] != '\\' {
        assert cs[1..][i] == cs[i + 1];
      }
    }
    ChainAfterEscape(s, {'\\'}, cs[1..]);
    assert {'\\'} + CharSet(cs[1..]) == CharSet(cs) by {
      assert forall c :: c in cs <==> c == cs[0] || c in cs[1..];
    }
  }

  /** Drops the backslash in front of each escaped character. */
  function Unescape(t: string): string {
    if t == [] then []
    else if t[0] == '\\' && |t| >= 2 then [t[1]] + Unescape(t[2..])
    else [t[0]] + Unescape(t[1..])
  }

  /** Deleting each inserted backslash recovers the input, for every set
      that escapes the backslash itself (as both escapers do). */
  lemma {:induction false} UnescapeEscape(s: string, specials: set<char>)
    requires '\\' in specials
    ensures Unescape(Escape(s, specials)) == s
  {
    if s != [] {
      var rest := Escape(s[1..], specials);
      UnescapeEscape(s[1..], specials);
      if s[0] in specials {
        var t := ['\\', s[0]] + rest;
        assert t[2..] == rest;
      } else {
        var t := [s[0]] + rest;
        assert t[1..] == rest;
      }
    }
  }

  /** Text without special characters is returned unchanged. */
  lemma {:induction false} EscapeUnchanged(s: string, specials: set<char>)
    requires forall i :: 0 <= i < |s| ==> s[i] !in specials
    ensures Escape(s, specials) == s
  {
    if s != [] {
      EscapeUnchanged(s[1..], specials);
    }
  }

  lemma {:induction false} EscapeAppend(a: string, b: string, specials: set<char>)
    ensures Escape(a + b, specials) == Escape(a, specials) + Escape(b, specials)
  {
    if a == [] {
      assert a + b == b;
    } else {
      assert (a + b)[0] == a[0];
      assert (a + b)[1..] == a[1..] + b;
      EscapeAppend(a[1..], b, specials);
    }
  }

  /** One character between two texts is escaped on its own. */
  lemma EscapeAround(a: string, x: char, b: string, specials: set<char>)
    ensures Escape(a + [x] + b, specials)
      == Escape(a, specials) + (if x in specials then ['\\', x] else [x]) + Escape(b, specials)
  {
    EscapeAppend(a + [x], b, specials);
    EscapeAppend(a, [x], specials);
  }

  /** The two escapers differ only on backticks: the activation escaper
      copies a backtick as is, the general one prefixes it. */
  lemma BacktickPassesThrough(a: string, b: string)
    ensures EscapeActivationOutput(a + "`" + b)
      == EscapeActivationOutput(a) + "`" + EscapeActivationOutput(b)
    ensures EscapeMarkdownV2(a + "`" + b)
      == EscapeMarkdownV2(a) + "\\`" + EscapeMarkdownV2(b)
  {
    assert '`' !in ActivationSet;
    assert '`' in MarkdownV2Set;
    EscapeAround(a, '`', b, ActivationSet);
    EscapeAround(a, '`', b, MarkdownV2Set);
  }

  /** The specific lengths: both escapers add one character per special. */
  lemma EscapedLengths(text: string)
    ensures |EscapeMarkdownV2(text)| == |text| + CountIn(text, MarkdownV2Set)
    ensures |EscapeActivationOutput(text)| == |text| + CountIn(text, ActivationSet)
    ensures Unescape(EscapeMarkdownV2(text)) == text
    ensures Unescape(EscapeActivationOutput(text)) == text
  {
    assert '\\' in MarkdownV2Set;
    assert '\\' in ActivationSet;
    UnescapeEscape(text, MarkdownV2Set);
    UnescapeEscape(text, ActivationSet);
  }

  // ---------------------------------------------------------------------
  // The request gate

  /** What the gate reads from the database about the sender. */
  datatype UserRecord = UserRecord(isBanned: bool, requestCount: nat)

  /** The database writes the gate asks for. */
  datatype Effect =
    | BanUser
    | IncrementRequestCount
    | LogActivation(machineCode: string, activationCode: string, version: string)

  /** The reply sent back. `Codes` carries the four-version report before
      escaping, whether the sender is an administrator, and the remaining
      count shown to anyone else. */
  datatype Reply =
    | BannedNotice
    | LimitReached(maxRequests: int)
    | InvalidMachineCode
    | Codes(report: string, isAdmin: bool, remaining: Option<int>)

  datatype Decision = Decision(reply: Reply, effects: seq<Effect>)

  /** `handle_machine_code`: refuse banned senders; refuse and ban a
      non-administrator whose count has reached the limit; trim the text,
      validate it, clean it and answer with the codes. Validation sees the
      trimmed text, so surrounding whitespace does not count towards the
      eight bytes here, and cleaning then changes nothing. */
  function HandleMachineCode(cfg: Config, h: Hashers, userId: int, user: UserRecord,
                             text: Option<string>, timestamp: string): (d: Decision)
    ensures user.isBanned ==> d == Decision(BannedNotice, [])
    ensures !user.isBanned && !IsAdmin(cfg, userId) && user.requestCount >= cfg.maxUserRequests ==>
      d == Decision(LimitReached(cfg.maxUserRequests), [BanUser])
    ensures IsAdmin(cfg, userId) ==> !d.reply.LimitReached?
    ensures d.reply.InvalidMachineCode? <==>
      !user.isBanned && (IsAdmin(cfg, userId) || user.requestCount < cfg.maxUserRequests)
      && !ValidateMachineCode(Trim(text.GetOr("")))
    ensures d.reply.InvalidMachineCode? ==> d.effects == []
    ensures d.reply.Codes? <==>
      !user.isBanned && (IsAdmin(cfg, userId) || user.requestCount < cfg.maxUserRequests)
      && ValidateMachineCode(Trim(text.GetOr("")))
    ensures d.reply.Codes? ==> d == Respond(cfg, h, userId, user, Trim(text.GetOr("")), timestamp)
  {
    if user.isBanned then
      Decision(BannedNotice, [])
    else if !IsAdmin(cfg, userId) && user.requestCount >= cfg.maxUserRequests then
      Decision(LimitReached(cfg.maxUserRequests), [BanUser])
    else if !ValidateMachineCode(Trim(text.GetOr(""))) then
      Decision(InvalidMachineCode, [])
    else
      Respond(cfg, h, userId, user, Trim(text.GetOr("")), timestamp)
  }

  /** `handle_machine_code` from the database lookup on: the sender's record
      is read first, and a failed read (no row because the sender never
      sent `/start`, or a database error) ends the handler with an error
      before any reply or write. A found record goes through the gate. */
  function HandleMessage(cfg: Config, h: Hashers, userId: int, lookup: Option<UserRecord>,
                         text: Option<string>, timestamp: string): (d: Option<Decision>)
    ensures d.None? <==> lookup.None?
    ensures lookup.Some? ==> d == Some(HandleMachineCode(cfg, h, userId, lookup.value, text, timestamp))
  {
    match lookup
    case None => None
    case Some(user) => Some(HandleMachineCode(cfg, h, userId, user, text, timestamp))
  }

  /** A sender without a readable record gets no reply and is neither
      counted nor banned, whatever they send; a sender with one is counted
      only when they get codes. */
  lemma UnknownSenderUntouched(cfg: Config, h: Hashers, userId: int, lookup: Option<UserRecord>,
                               text: Option<string>, timestamp: string)
    ensures var d := HandleMessage(cfg, h, userId, lookup, text, timestamp);
      && (lookup.None? ==> d.None?)
      && (d.Some? ==> (IncrementRequestCount in d.value.effects <==> d.value.reply.Codes?))
  {
    if lookup.Some? {
      GateEffects(cfg, h, userId, lookup.value, text, timestamp);
    }
  }

  /** The success branch of `handle_machine_code`: clean the code, render
      the four-version report, count the request, log the default-path
      Professional key with the classifier's label, and show the remaining
      count to anyone who is not an administrator. The report's generation
      time is given as already formatted text. This is the composition of
      the success path; its promises are proved about its parts: the keys
      shown in `ResultSection` and `ReportShowsKeys`, the escaping in
      `EscapedReport`, the log entry in `ActivationLog`, the writes in
      `RespondEffects` and `GateEffects`, and the remaining count in
      `RemainingNonNegative`. */
  function Respond(cfg: Config, h: Hashers, userId: int, user: UserRecord,
                   machineCode: string, timestamp: string): (d: Decision)
    ensures d.reply.Codes?
    ensures d.effects == [IncrementRequestCount] + ActivationLog(h, CleanMachineCode(machineCode))
    ensures d.reply.report
      == Report(CleanMachineCode(machineCode), timestamp, AllResults(h, CleanMachineCode(machineCode)))
    ensures d.reply.isAdmin == IsAdmin(cfg, userId)
    ensures d.reply.isAdmin <==> d.reply.remaining.None?
    ensures d.reply.remaining.Some? ==> d.reply.remaining.value == cfg.maxUserRequests - user.requestCount - 1
  {
    Decision(
      Codes(Report(CleanMachineCode(machineCode), timestamp, AllResults(h, CleanMachineCode(machineCode))),
            IsAdmin(cfg, userId),
            if IsAdmin(cfg, userId) then None else Some(cfg.maxUserRequests - user.requestCount - 1)),
      [IncrementRequestCount] + ActivationLog(h, CleanMachineCode(machineCode)))
  }

  /** The report as it goes out in a MarkdownV2 message: escaped by
      `escape_activation_output`, so its backticks still open and close
      code spans, and the keys can be read back by dropping the inserted
      backslashes. */
  function EscapedReport(reply: Reply): (text: string)
    requires reply.Codes?
    ensures text == Escape(reply.report, ActivationSet)
    ensures Unescape(text) == reply.report
  {
    EscapedLengths(reply.report);
    EscapeActivationOutput(reply.report)
  }

  /** The log entry written after a success: only the key of the default
      path (`generate`) and the classifier's label, although the reply shows
      all four versions' keys. */
  function ActivationLog(h: Hashers, clean: string): (log: seq<Effect>)
    ensures log == [LogActivation(clean,
                                  AllResults(h, clean)[LabelIndex(DetectVersion(clean).version)].professionalCode,
                                  DetectVersion(clean).version)]
  {
    if Generate(h, clean).Ok? then
      [LogActivation(clean, Generate(h, clean).value.0, Generate(h, clean).value.1.version)]
    else []
  }

  /** The count shown to a non-administrator who got codes is what is left
      after this request, and is never negative. */
  lemma RemainingNonNegative(cfg: Config, h: Hashers, userId: int, user: UserRecord,
                             text: Option<string>, timestamp: string)
    requires HandleMachineCode(cfg, h, userId, user, text, timestamp).reply.Codes?
    ensures var r := HandleMachineCode(cfg, h, userId, user, text, timestamp).reply;
      r.remaining.Some? ==> 0 <= r.remaining.value < cfg.maxUserRequests
  {
  }

  /** The gate validates text it has already trimmed, so the cleaned code is
      that text itself. */
  lemma GateCleanIsTrim(text: string)
    requires ValidateMachineCode(Trim(text))
    ensures CleanMachineCode(Trim(text)) == Trim(text)
  {
    ValidCleanIsTrim(Trim(text));
    TrimIdempotent(text);
  }

  /** One effect applied to the sender's record, as the database does. */
  function Step(user: UserRecord, e: Effect): (u: UserRecord)
    ensures u.isBanned == (user.isBanned || e == BanUser)
    ensures u.requestCount == user.requestCount + (if e == IncrementRequestCount then 1 else 0)
  {
    match e
    case BanUser => user.(isBanned := true)
    case IncrementRequestCount => user.(requestCount := user.requestCount + 1)
    case LogActivation(_, _, _) => user
  }

  /** The effects applied in order. */
  function Apply(user: UserRecord, effects: seq<Effect>): (u: UserRecord)
    ensures user.isBanned ==> u.isBanned
    ensures u.requestCount >= user.requestCount
    decreases |effects|
  {
    if effects == [] then user else Apply(Step(user, effects[0]), effects[1..])
  }

  /** Log entries leave the record as it is. */
  lemma {:induction false} ApplyLogs(user: UserRecord, effects: seq<Effect>)
    requires forall i :: 0 <= i < |effects| ==> effects[i].LogActivation?
    ensures Apply(user, effects) == user
    decreases |effects|
  {
    if effects != [] {
      ApplyLogs(user, effects[1..]);
    }
  }

  /** A request that got codes is counted and then logged, and nothing else. */
  predicate CountedThenLogged(effects: seq<Effect>) {
    && |effects| >= 1 && effects[0] == IncrementRequestCount
    && forall i :: 1 <= i < |effects| ==> effects[i].LogActivation?
  }

  /** The writes of each kind of reply: codes are counted then logged, a
      refusal at the limit bans, and every other reply writes nothing. */
  lemma GateEffectShapes(cfg: Config, h: Hashers, userId: int, user: UserRecord,
                         text: Option<string>, timestamp: string)
    ensures var d := HandleMachineCode(cfg, h, userId, user, text, timestamp);
      && (d.reply.Codes? ==> CountedThenLogged(d.effects))
      && (d.reply.LimitReached? ==> d.effects == [BanUser])
      && (!d.reply.Codes? && !d.reply.LimitReached? ==> d.effects == [])
  {
    RespondEffects(cfg, h, userId, user, Trim(text.GetOr("")), timestamp);
  }

  lemma RespondEffects(cfg: Config, h: Hashers, userId: int, user: UserRecord,
                       machineCode: string, timestamp: string)
    ensures CountedThenLogged(Respond(cfg, h, userId, user, machineCode, timestamp).effects)
  {
    var d := Respond(cfg, h, userId, user, machineCode, timestamp);
    var log := ActivationLog(h, CleanMachineCode(machineCode));
    assert d.effects == [IncrementRequestCount] + log;
  }

  /** Counted-then-logged writes count and never ban. */
  lemma CountedThenLoggedKinds(effects: seq<Effect>)
    requires CountedThenLogged(effects)
    ensures IncrementRequestCount in effects && BanUser !in effects
  {
    assert effects[0] == IncrementRequestCount;
    forall i | 0 <= i < |effects| ensures effects[i] != BanUser {
      if i > 0 {
        assert effects[i].LogActivation?;
      }
    }
  }

  /** Whatever a non-administrator sends, their count never passes the
      limit: it grows only while it is below the limit. */
  lemma GateKeepsLimit(cfg: Config, h: Hashers, userId: int, user: UserRecord,
                       text: Option<string>, timestamp: string)
    requires !IsAdmin(cfg, userId) && user.requestCount <= cfg.maxUserRequests
    ensures Apply(user, HandleMachineCode(cfg, h, userId, user, text, timestamp).effects).requestCount
      <= cfg.maxUserRequests
  {
    var d := HandleMachineCode(cfg, h, userId, user, text, timestamp);
    GateEffectShapes(cfg, h, userId, user, text, timestamp);
    ApplyBound(user, d.effects, cfg.maxUserRequests, d.reply.Codes?);
  }

  /** No write, a ban, or one count below the limit followed by log entries
      keep the count within the limit. */
  lemma ApplyBound(user: UserRecord, effects: seq<Effect>, max: int, counted: bool)
    requires user.requestCount <= max
    requires counted ==> user.requestCount < max && CountedThenLogged(effects)
    requires !counted ==> effects == [] || effects == [BanUser]
    ensures Apply(user, effects).requestCount <= max
  {
    if counted {
      ApplyLogs(Step(user, IncrementRequestCount), effects[1..]);
    } else if effects == [BanUser] {
      assert effects[1..] == [];
    }
  }

  /** Only a sender at the limit is banned, only a sender who gets codes is
      counted, and a banned sender's record is left as it is. */
  lemma GateEffects(cfg: Config, h: Hashers, userId: int, user: UserRecord,
                    text: Option<string>, timestamp: string)
    ensures var d := HandleMachineCode(cfg, h, userId, user, text, timestamp);
      && (BanUser in d.effects <==>
            !user.isBanned && !IsAdmin(cfg, userId) && user.requestCount >= cfg.maxUserRequests)
      && (IncrementRequestCount in d.effects <==> d.reply.Codes?)
      && (user.isBanned ==> Apply(user, d.effects) == user)
  {
    var d := HandleMachineCode(cfg, h, userId, user, text, timestamp);
    GateEffectShapes(cfg, h, userId, user, text, timestamp);
    if d.reply.Codes? {
      CountedThenLoggedKinds(d.effects);
    }
  }
}
