/** The command table (`COMMAND` in index.js): for every setting its display
    name, default value, renderer and setter; the help text and the default
    settings built from it; and the operator's command protocol over it. */
module Commands {
  import opened Wrappers
  import opened JsStrings
  import opened JsNumbers
  import opened OrderedSets

  /** The keys of the command table, in declaration order. */
  datatype Key = Whitelist | Revoke | CensorAll | MoreSensitive | MinLength

  const KEYS: seq<Key> := [Whitelist, Revoke, CensorAll, MoreSensitive, MinLength]

  /** A value held under a key: the whitelist set, a switch or a number. */
  datatype SettingValue = Ids(ids: seq<int>) | Flag(on: bool) | Integer(n: int)

  /** The `settings` object: the moderation policy. */
  datatype Policy = Policy(
    whitelist: seq<int>,    // QQ numbers exempt from moderation, in insertion order
    revoke: bool,           // retract offending messages, not only report them
    censorAll: bool,        // act on every category, not only malicious promotion
    moreSensitive: bool,    // treat a "suspected" verdict like a non-compliant one
    minLength: int)         // shortest text, in UTF-16 units, that is classified

  /** The only argument that switches a setting on; anything else switches it off. */
  const ON: string := "开"
  const OFF: string := "关"

  /** The display name `n`; its first space-separated word is the command keyword. */
  function DisplayName(k: Key): string
  {
    match k
    case Whitelist => "白名单 QQ号"
    case Revoke => "执行撤回 开/关"
    case CensorAll => "审查所有 开/关"
    case MoreSensitive => "处理疑似 开/关"
    case MinLength => "文本长度 数字"
  }

  /** The default `d`. */
  function Default(k: Key): SettingValue
  {
    match k
    case Whitelist => Ids([])
    case Revoke => Flag(true)
    case CensorAll => Flag(false)
    case MoreSensitive => Flag(false)
    case MinLength => Integer(8)
  }

  /** `settings[key]`. */
  function Field(p: Policy, k: Key): SettingValue
  {
    match k
    case Whitelist => Ids(p.whitelist)
    case Revoke => Flag(p.revoke)
    case CensorAll => Flag(p.censorAll)
    case MoreSensitive => Flag(p.moreSensitive)
    case MinLength => Integer(p.minLength)
  }

  /** The initial `settings`, one default per table entry. */
  function Defaults(): (p: Policy)
    ensures forall k :: Field(p, k) == Default(k)
  {
    Policy([], true, false, false, 8)
  }

  function IdsToStrings(ids: seq<int>): (r: seq<string>)
    ensures |r| == |ids|
    ensures forall i :: 0 <= i < |ids| ==> r[i] == IntToString(ids[i])
  {
    if ids == [] then [] else [IntToString(ids[0])] + IdsToStrings(ids[1..])
  }

  /** The renderer `g` as the reply shows it: a set as its elements joined by
      commas, a switch as 开 or 关, a number in decimal. */
  function Render(v: SettingValue): (text: string)
    ensures v.Flag? ==> (text == ON || text == OFF) && (text == ON <==> v.on)
    ensures v.Integer? ==> StringToInt32(text) == Wrap32(v.n)
    ensures v.Ids? && v.ids == [] ==> text == ""
    ensures v.Ids? && |v.ids| == 1 ==> StringToInt32(text) == Wrap32(v.ids[0])
  {
    match v
    case Ids(ids) =>
      if |ids| == 1 then RenderedIntRoundTrip(ids[0]); Join(IdsToStrings(ids), ",")
      else Join(IdsToStrings(ids), ",")
    case Flag(on) => if on then ON else OFF
    case Integer(n) => RenderedIntRoundTrip(n); IntToString(n)
  }

  /** The whitelist getter's text splits at its commas into the numbers, and
      each piece reads back through `~~` as its number's 32-bit value. */
  lemma WhitelistReadsBack(ids: seq<int>)
    requires ids != []
    ensures var pieces := SplitOn(Render(Ids(ids)), ',');
      && |pieces| == |ids|
      && (forall i :: 0 <= i < |ids| ==> pieces[i] == IntToString(ids[i]))
      && (forall i :: 0 <= i < |ids| ==> StringToInt32(pieces[i]) == Wrap32(ids[i]))
  {
    var parts := IdsToStrings(ids);
    forall i | 0 <= i < |parts| ensures ',' !in parts[i] {
      var t := parts[i];
      assert forall j :: 0 <= j < |t| ==> t[j] != ',';
    }
    SplitOnJoin(parts, ',');
    assert Render(Ids(ids)) == Join(parts, [',']);
    forall i | 0 <= i < |ids| ensures StringToInt32(parts[i]) == Wrap32(ids[i]) {
      RenderedIntRoundTrip(ids[i]);
    }
  }

  /** The whitelist every load leaves, the report and then the login QQ
      number, shows as the two numbers with a comma between them. */
  lemma LoadedWhitelistShowsBoth(report: int, login: int)
    ensures Render(Ids([report, login])) == IntToString(report) + "," + IntToString(login)
  {
    var parts := IdsToStrings([report, login]);
    assert parts[..1] == [IntToString(report)];
  }

  /** The setter `s`: the whitelist entry toggles membership of `~~arg`; a
      switch is on exactly when the argument is 开; the length becomes `~~arg`. */
  function Apply(p: Policy, k: Key, arg: string): (q: Policy)
    ensures forall k' :: k' != k ==> Field(q, k') == Field(p, k')
    ensures k in {Revoke, CensorAll, MoreSensitive} ==> Field(q, k) == Flag(arg == ON)
    ensures k == MinLength ==> q.minLength == StringToInt32(arg) && IsInt32(q.minLength)
    ensures k == Whitelist ==>
      forall x :: x in q.whitelist <==> (x in p.whitelist <==> x != StringToInt32(arg))
    ensures NoDuplicates(p.whitelist) ==> NoDuplicates(q.whitelist)
  {
    match k
    case Whitelist =>
      p.(whitelist := Toggle(p.whitelist, StringToInt32(arg)))
    case Revoke => p.(revoke := arg == ON)
    case CensorAll => p.(censorAll := arg == ON)
    case MoreSensitive => p.(moreSensitive := arg == ON)
    case MinLength => p.(minLength := StringToInt32(arg))
  }

  function DisplayNames(keys: seq<Key>): (r: seq<string>)
    ensures |r| == |keys|
    ensures forall i :: 0 <= i < |keys| ==> r[i] == DisplayName(keys[i])
  {
    if keys == [] then [] else [DisplayName(keys[0])] + DisplayNames(keys[1..])
  }

  const HELP_HEADER: string := "命令列表：\n"

  /** `HELP`: the header, then every display name on a line of its own. */
  function HelpText(): (help: string)
    ensures HELP_HEADER <= help
  {
    HELP_HEADER + Join(DisplayNames(KEYS), "\n")
  }

  /** The keyword of an entry: `n.split(' ')[0]`. */
  function Keyword(k: Key): string
  {
    BeforeFirstSpace(DisplayName(k))
  }

  function Keywords(keys: seq<Key>): (r: seq<string>)
    ensures |r| == |keys|
    ensures forall i :: 0 <= i < |keys| ==> r[i] == Keyword(keys[i])
  {
    if keys == [] then [] else [Keyword(keys[0])] + Keywords(keys[1..])
  }

  /** `xs.findIndex(v => v === x)`: the first position holding `x`, or -1. */
  function FindIndex(xs: seq<string>, x: string): (i: int)
    ensures -1 <= i < |xs|
    ensures i == -1 <==> x !in xs
    ensures i >= 0 ==> xs[i] == x && x !in xs[..i]
  {
    if xs == [] then -1
    else if xs[0] == x then 0
    else
      var j := FindIndex(xs[1..], x);
      if j == -1 then -1 else j + 1
  }

  /** The five keywords, as `n.split(' ')[0]` yields them. */
  lemma KeywordTable()
    ensures Keyword(Whitelist) == "白名单"
    ensures Keyword(Revoke) == "执行撤回"
    ensures Keyword(CensorAll) == "审查所有"
    ensures Keyword(MoreSensitive) == "处理疑似"
    ensures Keyword(MinLength) == "文本长度"
  {
    KeywordOfWhitelist();
    KeywordOfRevoke();
    KeywordOfCensorAll();
    KeywordOfMoreSensitive();
    KeywordOfMinLength();
  }

  lemma KeywordOfWhitelist()
    ensures Keyword(Whitelist) == "白名单"
  {
    WordBeforeSpace("白名单", "QQ号");
    assert "白名单" + " " + "QQ号" == DisplayName(Whitelist);
  }

  lemma KeywordOfRevoke()
    ensures Keyword(Revoke) == "执行撤回"
  {
    WordBeforeSpace("执行撤回", "开/关");
    assert "执行撤回" + " " + "开/关" == DisplayName(Revoke);
  }

  lemma KeywordOfCensorAll()
    ensures Keyword(CensorAll) == "审查所有"
  {
    WordBeforeSpace("审查所有", "开/关");
    assert "审查所有" + " " + "开/关" == DisplayName(CensorAll);
  }

  lemma KeywordOfMoreSensitive()
    ensures Keyword(MoreSensitive) == "处理疑似"
  {
    WordBeforeSpace("处理疑似", "开/关");
    assert "处理疑似" + " " + "开/关" == DisplayName(MoreSensitive);
  }

  lemma KeywordOfMinLength()
    ensures Keyword(MinLength) == "文本长度"
  {
    WordBeforeSpace("文本长度", "数字");
    assert "文本长度" + " " + "数字" == DisplayName(MinLength);
  }

  lemma {:induction false} WordBeforeSpace(w: string, rest: string)
    requires ' ' !in w
    ensures BeforeFirstSpace(w + " " + rest) == w
  {
    if w != [] {
      assert (w + " " + rest)[1..] == w[1..] + " " + rest;
      WordBeforeSpace(w[1..], rest);
    }
  }

  /** Distinct entries have distinct keywords, and no keyword is empty. */
  lemma KeywordsDistinct()
    ensures forall k1, k2 :: Keyword(k1) == Keyword(k2) ==> k1 == k2
    ensures forall k :: Keyword(k) != ""
  {
    forall k ensures |Keyword(k)| > 0 && Keyword(k)[0] == Initial(k) {
      KeywordStartsWithInitial(k);
    }
  }

  /** The first character of each keyword; no two are alike. */
  function Initial(k: Key): char
  {
    match k
    case Whitelist => '白'
    case Revoke => '执'
    case CensorAll => '审'
    case MoreSensitive => '处'
    case MinLength => '文'
  }

  lemma KeywordStartsWithInitial(k: Key)
    ensures |Keyword(k)| > 0 && Keyword(k)[0] == Initial(k)
  {
    match k
    case Whitelist => KeywordOfWhitelist();
    case Revoke => KeywordOfRevoke();
    case CensorAll => KeywordOfCensorAll();
    case MoreSensitive => KeywordOfMoreSensitive();
    case MinLength => KeywordOfMinLength();
  }

  /** The lookup `cmdArr.map(...).findIndex(...)`: the entry whose keyword is
      exactly `token`, if there is one. */
  function Lookup(token: string): (r: Option<Key>)
    ensures forall k :: r == Some(k) <==> Keyword(k) == token
  {
    var keywords := Keywords(KEYS);
    var idx := FindIndex(keywords, token);
    KeywordsDistinct();
    assert forall k :: keywords[Position(k)] == Keyword(k);
    if idx >= 0 then Some(KEYS[idx]) else None
  }

  /** Where an entry stands in the table. */
  function Position(k: Key): (i: nat)
    ensures i < |KEYS| && KEYS[i] == k
  {
    match k
    case Whitelist => 0
    case Revoke => 1
    case CensorAll => 2
    case MoreSensitive => 3
    case MinLength => 4
  }

  /** What a private message from the operator asks for. */
  datatype Command = ShowHelp | Show(key: Key) | Change(key: Key, arg: string)

  /** `Content.split(/\s+/)`, then the keyword lookup of `cmd[0]`; `cmd[1]`
      counts as an argument only when present and non-empty. */
  function ParseCommand(content: string): (c: Command)
    ensures var f := SplitWhitespace(content);
      && (c.ShowHelp? <==> forall k :: Keyword(k) != f[0])
      && (c.Show? ==> Keyword(c.key) == f[0] && (|f| < 2 || f[1] == ""))
      && (c.Change? ==> Keyword(c.key) == f[0] && |f| >= 2 && f[1] != "" && c.arg == f[1])
  {
    var cmd := SplitWhitespace(content);
    match Lookup(cmd[0])
    case None => ShowHelp
    case Some(k) => if |cmd| >= 2 && cmd[1] != "" then Change(k, cmd[1]) else Show(k)
  }

  /** The reply, the policy afterwards, and how many times it was saved. */
  datatype CommandResult = CommandResult(reply: string, next: Policy, saves: nat)

  const CHANGED: string := " - 设定修改成功"
  const CURRENT: string := " - 当前设定值为"

  /** The operator command handler's effect on the policy. */
  function RunCommand(p: Policy, content: string): (r: CommandResult)
    ensures r.saves <= 1
    ensures r.saves == 0 ==> r.next == p
    ensures NoDuplicates(p.whitelist) ==> NoDuplicates(r.next.whitelist)
  {
    match ParseCommand(content)
    case ShowHelp => CommandResult(HelpText(), p, 0)
    case Show(k) => CommandResult(Keyword(k) + CURRENT + Render(Field(p, k)), p, 0)
    case Change(k, arg) => CommandResult(Keyword(k) + CHANGED, Apply(p, k, arg), 1)
  }

  /** `HELP` lists every display name, one per line, in table order. */
  lemma HelpListsEveryEntry()
    ensures HelpText() == HELP_HEADER + DisplayName(Whitelist) + "\n" + DisplayName(Revoke) + "\n" +
      DisplayName(CensorAll) + "\n" + DisplayName(MoreSensitive) + "\n" + DisplayName(MinLength)
  {
    var names := DisplayNames(KEYS);
    assert names == [DisplayName(Whitelist), DisplayName(Revoke), DisplayName(CensorAll),
                     DisplayName(MoreSensitive), DisplayName(MinLength)];
    JoinFive(names, "\n");
  }

  lemma JoinFive(parts: seq<string>, sep: string)
    requires |parts| == 5
    ensures Join(parts, sep) == parts[0] + sep + parts[1] + sep + parts[2] + sep + parts[3] + sep + parts[4]
  {
    assert parts[..4][..3] == parts[..3];
    assert parts[..3][..2] == parts[..2];
    assert parts[..2][..1] == parts[..1];
    assert Join(parts[..2], sep) == parts[0] + sep + parts[1];
    assert Join(parts[..3], sep) == parts[0] + sep + parts[1] + sep + parts[2];
    assert Join(parts[..4], sep) == parts[0] + sep + parts[1] + sep + parts[2] + sep + parts[3];
  }

  /** A first word that is no keyword gets the help text and changes nothing. */
  lemma UnknownKeywordShowsHelp(p: Policy, content: string)
    requires forall k :: Keyword(k) != SplitWhitespace(content)[0]
    ensures RunCommand(p, content) == CommandResult(HelpText(), p, 0)
  {
  }

  /** Leading whitespace makes `cmd[0]` empty, which matches no keyword. */
  lemma LeadingWhitespaceShowsHelp(p: Policy, content: string)
    requires |content| > 0 && IsWhitespace(content[0])
    ensures RunCommand(p, content) == CommandResult(HelpText(), p, 0)
  {
    LeadingWhitespaceGivesEmptyHead(content);
    KeywordsDistinct();
  }

  /** A keyword without an argument reports the current value, changes and
      saves nothing, and asking again gives the same reply. */
  lemma QueryIsIdempotent(p: Policy, content: string)
    requires ParseCommand(content).Show?
    ensures var r := RunCommand(p, content);
      && r.next == p && r.saves == 0
      && r.reply == Keyword(ParseCommand(content).key) + CURRENT + Render(Field(p, ParseCommand(content).key))
      && RunCommand(r.next, content) == r
  {
  }

  /** A keyword with a non-empty argument applies that entry's setter, saves
      once and confirms the change. */
  lemma ChangeAppliesSetter(p: Policy, content: string)
    requires ParseCommand(content).Change?
    ensures var c := ParseCommand(content); var r := RunCommand(p, content);
      && r.next == Apply(p, c.key, c.arg)
      && r.saves == 1
      && r.reply == Keyword(c.key) + CHANGED
  {
  }

  /** Giving the whitelist command the same argument twice restores the set's
      membership; the set is restored exactly when the number was absent (a
      number that was present comes back at the end). */
  lemma {:induction false} WhitelistToggleTwice(p: Policy, arg: string)
    requires NoDuplicates(p.whitelist)
    ensures var q := Apply(Apply(p, Whitelist, arg), Whitelist, arg);
      && (forall x :: x in q.whitelist <==> x in p.whitelist)
      && (StringToInt32(arg) !in p.whitelist ==> q == p)
      && (StringToInt32(arg) in p.whitelist ==>
            q == p.(whitelist := Delete(p.whitelist, StringToInt32(arg)) + [StringToInt32(arg)]))
  {
    var x := StringToInt32(arg);
    if x !in p.whitelist {
      DeleteUndoesAdd(p.whitelist, x);
    }
  }

  /** Typing back the value a query shows leaves a switch or a 32-bit length
      as it was (the whitelist is a toggle, so there it would remove an
      entry). */
  lemma ReapplyShownValue(p: Policy, k: Key)
    requires k != Whitelist
    requires IsInt32(p.minLength)
    ensures Apply(p, k, Render(Field(p, k))) == p
  {
    if k == MinLength {
      RenderedIntRoundTrip(p.minLength);
    }
  }

  /** A length outside the 32-bit range, which settings.json can hold, is
      shown in full but typed back as its 32-bit wrap. */
  lemma ReapplyShownWideLength(p: Policy)
    requires !IsInt32(p.minLength)
    ensures Apply(p, MinLength, Render(Field(p, MinLength))).minLength == Wrap32(p.minLength)
    ensures Apply(p, MinLength, Render(Field(p, MinLength))) != p
  {
    RenderedIntRoundTrip(p.minLength);
  }

  /** Typing back one number the whitelist query shows removes that number. */
  lemma ReapplyShownIdRemovesIt(p: Policy, x: int)
    requires x in p.whitelist && IsInt32(x)
    ensures Apply(p, Whitelist, IntToString(x)).whitelist == Delete(p.whitelist, x)
  {
    RenderedIntRoundTrip(x);
  }

  /** A number outside the 32-bit range, which the whitelist can hold (a
      sender learned after a failed retraction, or a configured QQ number),
      is not removed by typing it back: `~~` turns it into another number,
      and that number's membership is flipped instead. */
  lemma ReapplyShownWideIdKeepsIt(p: Policy, x: int)
    requires x in p.whitelist && !IsInt32(x)
    ensures var q := Apply(p, Whitelist, IntToString(x)).whitelist;
      x in q && (Wrap32(x) in q <==> Wrap32(x) !in p.whitelist)
  {
    RenderedIntRoundTrip(x);
    assert Wrap32(x) != x;
  }

  /** Every keyword is a non-empty word without whitespace. */
  lemma KeywordsAreWords(k: Key)
    ensures |Keyword(k)| > 0 && NoWhitespace(Keyword(k))
  {
    match k
    case Whitelist => WhitelistKeywordIsWord();
    case Revoke => RevokeKeywordIsWord();
    case CensorAll => CensorAllKeywordIsWord();
    case MoreSensitive => MoreSensitiveKeywordIsWord();
    case MinLength => MinLengthKeywordIsWord();
  }

  lemma WhitelistKeywordIsWord()
    ensures |Keyword(Whitelist)| > 0 && NoWhitespace(Keyword(Whitelist))
  {
    KeywordOfWhitelist();
    HanIsNotWhitespace("白名单");
  }

  lemma RevokeKeywordIsWord()
    ensures |Keyword(Revoke)| > 0 && NoWhitespace(Keyword(Revoke))
  {
    KeywordOfRevoke();
    HanIsNotWhitespace("执行撤回");
  }

  lemma CensorAllKeywordIsWord()
    ensures |Keyword(CensorAll)| > 0 && NoWhitespace(Keyword(CensorAll))
  {
    KeywordOfCensorAll();
    HanIsNotWhitespace("审查所有");
  }

  lemma MoreSensitiveKeywordIsWord()
    ensures |Keyword(MoreSensitive)| > 0 && NoWhitespace(Keyword(MoreSensitive))
  {
    KeywordOfMoreSensitive();
    HanIsNotWhitespace("处理疑似");
  }

  lemma MinLengthKeywordIsWord()
    ensures |Keyword(MinLength)| > 0 && NoWhitespace(Keyword(MinLength))
  {
    KeywordOfMinLength();
    HanIsNotWhitespace("文本长度");
  }

  /** The command `cmd[0] cmd[1]` with a keyword and a non-empty argument. */
  lemma ParsesAsChange(content: string, k: Key, arg: string)
    requires var f := SplitWhitespace(content); |f| >= 2 && f[0] == Keyword(k) && f[1] == arg && arg != ""
    ensures ParseCommand(content) == Change(k, arg)
  {
    assert Lookup(Keyword(k)) == Some(k);
  }

  /** The command `cmd[0]` with a keyword and an empty `cmd[1]`. */
  lemma ParsesAsShow(content: string, k: Key)
    requires SplitWhitespace(content) == [Keyword(k), ""]
    ensures ParseCommand(content) == Show(k)
  {
    assert Lookup(Keyword(k)) == Some(k);
  }

  /** A keyword typed alone (`cmd[1] === undefined`) is a query. */
  lemma KeywordAloneQueries(p: Policy, k: Key)
    ensures RunCommand(p, Keyword(k)) == CommandResult(Keyword(k) + CURRENT + Render(Field(p, k)), p, 0)
  {
    KeywordsAreWords(k);
    assert SplitWhitespace(Keyword(k)) == [Keyword(k)];
    assert Lookup(Keyword(k)) == Some(k);
  }

  /** A keyword followed only by whitespace (`cmd[1] === ''`) is a query. */
  lemma {:induction false} KeywordWithTrailingWhitespaceQueries(p: Policy, k: Key, ws: string)
    requires |ws| > 0 && forall i :: 0 <= i < |ws| ==> IsWhitespace(ws[i])
    ensures RunCommand(p, Keyword(k) + ws) == CommandResult(Keyword(k) + CURRENT + Render(Field(p, k)), p, 0)
  {
    KeywordsAreWords(k);
    TrailingWhitespaceGivesEmptyTail(Keyword(k), ws);
    ParsesAsShow(Keyword(k) + ws, k);
  }

  /** A keyword, whitespace and a word change that entry with the word;
      anything after the next whitespace is ignored. */
  lemma {:induction false} KeywordWithArgumentChanges(p: Policy, k: Key, ws: string, arg: string, rest: string)
    requires |ws| > 0 && forall i :: 0 <= i < |ws| ==> IsWhitespace(ws[i])
    requires |arg| > 0 && NoWhitespace(arg)
    requires rest == [] || IsWhitespace(rest[0])
    ensures RunCommand(p, Keyword(k) + ws + arg + rest) == CommandResult(Keyword(k) + CHANGED, Apply(p, k, arg), 1)
  {
    KeywordsAreWords(k);
    SecondWord(Keyword(k), ws, arg, rest);
    ParsesAsChange(Keyword(k) + ws + arg + rest, k, arg);
  }

  /** `文本长度 开` sets the length to 0, so every text is then classified. */
  lemma NonNumericLengthIsZero(p: Policy)
    ensures RunCommand(p, Keyword(MinLength) + " " + ON).next == p.(minLength := 0)
  {
    KeywordWithArgumentChanges(p, MinLength, " ", ON, "");
    assert Keyword(MinLength) + " " + ON + "" == Keyword(MinLength) + " " + ON;
    OnTokenIsZero();
  }

  /** `执行撤回 关` switches retraction off and confirms the change. */
  lemma SwitchOffExample(p: Policy)
    ensures RunCommand(p, Keyword(Revoke) + " " + OFF) == CommandResult(Keyword(Revoke) + CHANGED, p.(revoke := false), 1)
  {
    KeywordWithArgumentChanges(p, Revoke, " ", OFF, "");
    assert Keyword(Revoke) + " " + OFF + "" == Keyword(Revoke) + " " + OFF;
  }
}
