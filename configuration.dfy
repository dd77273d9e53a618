/** The bot's settings (`src/config.rs`): loading from the process
    environment, the administrator test and the sanity check. The
    environment is given as a map from variable names to their values. */
module Configuration {
  import opened Results
  import opened Text
  import opened Numbers

  /** `Config`. Integer fields hold values of the source's widths: `chatId`
      and the administrator ids are i64, `maxUserRequests` is i32 and
      `guardCheckInterval` is u64. */
  datatype Config = Config(
    botToken: string,
    chatId: int,
    adminIds: seq<int>,
    databaseUrl: string,
    maxUserRequests: int,
    logLevel: string,
    guardCheckInterval: nat)

  const DefaultDatabaseUrl: string := "sqlite:finalshell_bot.db"
  const DefaultMaxUserRequests: int := 3
  const DefaultLogLevel: string := "info"
  const DefaultGuardCheckInterval: nat := 86400

  /** `env::var(name).unwrap_or_else(|_| default)`. */
  function VarOr(env: map<string, string>, name: string, default: string): (v: string)
    ensures name in env ==> v == env[name]
    ensures name !in env ==> v == default
  {
    if name in env then env[name] else default
  }

  /** The ids of the pieces that parse as i64 once trimmed, in order; the
      others are dropped. */
  function ParsedIds(pieces: seq<string>): (ids: seq<int>)
    ensures |ids| <= |pieces|
    ensures forall i :: 0 <= i < |ids| ==> I64_MIN <= ids[i] <= I64_MAX
  {
    if pieces == [] then [] else PieceIds(pieces[0]) + ParsedIds(pieces[1..])
  }

  /** The id of one piece, if it parses once trimmed. */
  function PieceIds(piece: string): (ids: seq<int>)
    ensures |ids| <= 1
    ensures forall v :: v in ids <==> ParseI64(Trim(piece)) == Some(v)
    ensures forall i :: 0 <= i < |ids| ==> I64_MIN <= ids[i] <= I64_MAX
  {
    match ParseI64(Trim(piece))
    case Some(v) => [v]
    case None => []
  }

  /** The `ADMIN_IDS` pipeline: split on commas, trim, keep what parses. */
  function ParseAdminIds(raw: string): (ids: seq<int>)
    ensures |ids| <= |Split(raw, ',')|
    ensures forall i :: 0 <= i < |ids| ==> I64_MIN <= ids[i] <= I64_MAX
    ensures forall v :: v in ids <==>
      exists i :: 0 <= i < |Split(raw, ',')| && ParseI64(Trim(Split(raw, ',')[i])) == Some(v)
  {
    AllParsedIdsMembers(Split(raw, ','));
    ParsedIds(Split(raw, ','))
  }

  lemma AllParsedIdsMembers(pieces: seq<string>)
    ensures forall v :: v in ParsedIds(pieces) <==>
      exists i :: 0 <= i < |pieces| && ParseI64(Trim(pieces[i])) == Some(v)
  {
    forall v {
      ParsedIdsMembers(pieces, v);
    }
  }

  /** An id is kept exactly when some piece parses to it. */
  lemma {:induction false} ParsedIdsMembers(pieces: seq<string>, v: int)
    ensures v in ParsedIds(pieces) <==> exists i :: 0 <= i < |pieces| && ParseI64(Trim(pieces[i])) == Some(v)
  {
    if pieces != [] {
      ParsedIdsMembers(pieces[1..], v);
      if exists i :: 0 <= i < |pieces| && ParseI64(Trim(pieces[i])) == Some(v) {
        var i :| 0 <= i < |pieces| && ParseI64(Trim(pieces[i])) == Some(v);
        if i > 0 {
          assert pieces[1..][i - 1] == pieces[i];
        }
      }
      if exists i :: 0 <= i < |pieces[1..]| && ParseI64(Trim(pieces[1..][i])) == Some(v) {
        var i :| 0 <= i < |pieces[1..]| && ParseI64(Trim(pieces[1..][i])) == Some(v);
        assert pieces[i + 1] == pieces[1..][i];
      }
    }
  }

  /** Parsing a concatenation of piece lists parses each list in turn: the
      order of the ids follows the order of the pieces. */
  lemma {:induction false} ParsedIdsAppend(a: seq<string>, b: seq<string>)
    ensures ParsedIds(a + b) == ParsedIds(a) + ParsedIds(b)
  {
    if a == [] {
      assert a + b == b;
    } else {
      var ab := a + b;
      assert ab[0] == a[0];
      assert ab[1..] == a[1..] + b;
      assert ParsedIds(ab) == PieceIds(a[0]) + ParsedIds(a[1..] + b);
      ParsedIdsAppend(a[1..], b);
      IdsAssoc(PieceIds(a[0]), ParsedIds(a[1..]), ParsedIds(b));
    }
  }

  lemma IdsAssoc(x: seq<int>, y: seq<int>, z: seq<int>)
    ensures x + (y + z) == x + y + z
  {
  }

  /** An unset or empty `ADMIN_IDS` gives no administrators. */
  lemma EmptyAdminIds()
    ensures ParseAdminIds("") == []
  {
    assert ParseI64(Trim("")) == None;
  }

  /** Decimal text of an i64, with a minus sign when negative. */
  function IdToString(id: int): string {
    if id < 0 then "-" + NatToString(-id) else NatToString(id)
  }

  /** The ids written as a comma-separated list. */
  function JoinIds(ids: seq<int>): string {
    if ids == [] then "" else Join(seq(|ids|, i requires 0 <= i < |ids| => IdToString(ids[i])), ',')
  }

  lemma IdToStringParses(id: int)
    requires I64_MIN <= id <= I64_MAX
    ensures ',' !in IdToString(id)
    ensures Trim(IdToString(id)) == IdToString(id)
    ensures ParseI64(Trim(IdToString(id))) == Some(id)
  {
    var s := IdToString(id);
    IdTextParses(id);
    TrimOfTrimmed(s);
  }

  /** The decimal text of an i64 is digits after an optional minus, and
      parses back. */
  lemma IdTextParses(id: int)
    requires I64_MIN <= id <= I64_MAX
    ensures var s := IdToString(id);
      && s != [] && ',' !in s && !IsWhitespace(s[0]) && !IsWhitespace(s[|s| - 1])
      && ParseI64(s) == Some(id)
  {
    var s := IdToString(id);
    if id < 0 {
      ParseNegated(-id, I64_MIN, I64_MAX);
      assert s[1..] == NatToString(-id);
      assert forall i :: 1 <= i < |s| ==> IsDigit(s[i]) by {
        forall i | 1 <= i < |s| ensures IsDigit(s[i]) {
          assert s[i] == s[1..][i - 1];
        }
      }
    } else {
      ParseNatToString(id, true, I64_MIN, I64_MAX);
    }
    assert !IsWhitespace(s[0]) && !IsWhitespace(s[|s| - 1]);
  }

  /** Writing i64 ids as a comma-separated list and loading it back gives
      the same ids in the same order. */
  lemma {:induction false} AdminIdsRoundTrip(ids: seq<int>)
    requires forall i :: 0 <= i < |ids| ==> I64_MIN <= ids[i] <= I64_MAX
    ensures ParseAdminIds(JoinIds(ids)) == ids
  {
    if ids == [] {
      EmptyAdminIds();
    } else {
      var parts := seq(|ids|, i requires 0 <= i < |ids| => IdToString(ids[i]));
      forall i | 0 <= i < |parts| ensures ',' !in parts[i] {
        IdToStringParses(ids[i]);
      }
      SplitJoin(parts, ',');
      PartsParse(ids, parts);
    }
  }

  lemma {:induction false} PartsParse(ids: seq<int>, parts: seq<string>)
    requires forall i :: 0 <= i < |ids| ==> I64_MIN <= ids[i] <= I64_MAX
    requires |parts| == |ids|
    requires forall i :: 0 <= i < |ids| ==> parts[i] == IdToString(ids[i])
    ensures ParsedIds(parts) == ids
  {
    if ids != [] {
      IdToStringParses(ids[0]);
      PartsParse(ids[1..], parts[1..]);
    }
  }

  /** `Config::load`. Only `BOT_TOKEN` and `CHAT_ID` are required; every
      other variable has a default that also replaces an unparsable value. */
  function Load(env: map<string, string>): (r: Result<Config>)
    ensures r.Err? <==> "BOT_TOKEN" !in env || "CHAT_ID" !in env || ParseI64(env["CHAT_ID"]).None?
    ensures r.Ok? ==>
      && r.value.botToken == env["BOT_TOKEN"]
      && ParseI64(env["CHAT_ID"]) == Some(r.value.chatId)
      && r.value.adminIds == ParseAdminIds(VarOr(env, "ADMIN_IDS", ""))
      && r.value.databaseUrl == VarOr(env, "DATABASE_URL", DefaultDatabaseUrl)
      && r.value.logLevel == VarOr(env, "LOG_LEVEL", DefaultLogLevel)
    ensures r.Ok? ==> I32_MIN <= r.value.maxUserRequests <= I32_MAX
    ensures r.Ok? && ("MAX_USER_REQUESTS" !in env || ParseI32(env["MAX_USER_REQUESTS"]).None?) ==>
      r.value.maxUserRequests == DefaultMaxUserRequests
    ensures r.Ok? && "MAX_USER_REQUESTS" in env && ParseI32(env["MAX_USER_REQUESTS"]).Some? ==>
      r.value.maxUserRequests == ParseI32(env["MAX_USER_REQUESTS"]).value
    ensures r.Ok? ==> r.value.guardCheckInterval <= U64_MAX
    ensures r.Ok? && ("GUARD_CHECK_INTERVAL" !in env || ParseU64(env["GUARD_CHECK_INTERVAL"]).None?) ==>
      r.value.guardCheckInterval == DefaultGuardCheckInterval
    ensures r.Ok? && "GUARD_CHECK_INTERVAL" in env && ParseU64(env["GUARD_CHECK_INTERVAL"]).Some? ==>
      r.value.guardCheckInterval == ParseU64(env["GUARD_CHECK_INTERVAL"]).value
  {
    if "BOT_TOKEN" !in env then
      Err("BOT_TOKEN 环境变量未设置")
    else if "CHAT_ID" !in env then
      Err("CHAT_ID 环境变量未设置")
    else
      match ParseI64(env["CHAT_ID"])
      case None => Err("CHAT_ID 格式错误")
      case Some(chatId) =>
        var adminIds := ParseAdminIds(VarOr(env, "ADMIN_IDS", ""));
        var databaseUrl := VarOr(env, "DATABASE_URL", DefaultDatabaseUrl);
        var maxUserRequests := ParseI32(VarOr(env, "MAX_USER_REQUESTS", "3")).GetOr(3);
        var logLevel := VarOr(env, "LOG_LEVEL", DefaultLogLevel);
        var interval := ParseU64(VarOr(env, "GUARD_CHECK_INTERVAL", "86400")).GetOr(86400);
        DefaultTextsParse();
        Ok(Config(env["BOT_TOKEN"], chatId, adminIds, databaseUrl, maxUserRequests, logLevel, interval))
  }

  /** The default texts of the two numeric settings parse to the defaults. */
  lemma DefaultTextsParse()
    ensures ParseI32("3") == Some(3)
    ensures ParseU64("86400") == Some(86400)
  {
    assert NatToString(3) == "3";
    ParseNatToString(3, true, I32_MIN, I32_MAX);
    var five := NatToString(86400);
    assert DigitsValue(five) == 86400;
    NatToStringExample();
    ParseNatToString(86400, false, 0, U64_MAX);
  }

  lemma NatToStringExample()
    ensures NatToString(86400) == "86400"
  {
    assert NatToString(8) == "8";
    assert NatToString(86) == "86";
    assert NatToString(864) == "864";
    assert NatToString(8640) == "8640";
  }

  /** `Config::is_admin`: a linear search of the administrator list. */
  function IsAdmin(cfg: Config, userId: int): (b: bool)
    ensures b <==> userId in cfg.adminIds
  {
    ListContains(cfg.adminIds, userId)
  }

  function ListContains(ids: seq<int>, id: int): (b: bool)
    ensures b <==> id in ids
  {
    if ids == [] then false
    else if ids[0] == id then true
    else
      var b := ListContains(ids[1..], id);
      assert ids == [ids[0]] + ids[1..];
      b
  }

  /** `Config::validate`: the three checks in order, the first failure
      reported. */
  function Validate(cfg: Config): (r: Outcome)
    ensures r == Pass <==> cfg.botToken != "" && cfg.chatId != 0 && cfg.maxUserRequests > 0
    ensures cfg.botToken == "" ==> r == Fail("Bot token 不能为空")
    ensures cfg.botToken != "" && cfg.chatId == 0 ==> r == Fail("Chat ID 不能为空")
    ensures cfg.botToken != "" && cfg.chatId != 0 && cfg.maxUserRequests <= 0 ==>
      r == Fail("最大用户请求数必须大于0")
  {
    if cfg.botToken == "" then Fail("Bot token 不能为空")
    else if cfg.chatId == 0 then Fail("Chat ID 不能为空")
    else if cfg.maxUserRequests <= 0 then Fail("最大用户请求数必须大于0")
    else Pass
  }

  /** With a non-empty token, a non-zero chat id and no request limit set,
      the loaded settings pass validation: the default limit is positive. */
  lemma LoadedDefaultsValidate(env: map<string, string>)
    requires "BOT_TOKEN" in env && env["BOT_TOKEN"] != ""
    requires "CHAT_ID" in env && ParseI64(env["CHAT_ID"]).Some? && ParseI64(env["CHAT_ID"]).value != 0
    requires "MAX_USER_REQUESTS" !in env
    ensures Load(env).Ok? && Validate(Load(env).value) == Pass
  {
  }
}
