/** Saving the configuration as text and loading it back. */
module IniConfig {
  import opened Common
  import opened IniText

  const DEFAULT_PORT := 30456
  const DEFAULT_HOST := "0.0.0.0"
  const HOST_CAPACITY := 15

  /** The settings that are kept in the file; `port` is a u16 and `level` a u32 in the program. */
  datatype Config = Config(host: string, port: nat, logging: bool, level: nat)

  /** The names the settings have in the file. */
  datatype Keys = Keys(host: string, port: string, logging: string, level: string) {
    /** Lower-case words, no two alike. */
    predicate Usable() {
      && PlainKey(host) && PlainKey(port) && PlainKey(logging) && PlainKey(level)
      && host != port && host != logging && host != level && port != logging && port != level && logging != level
    }
  }

  const KEYS := Keys("custom_host", "custom_port", "logging_enabled", "logging_level")

  predicate PlainKey(key: string) {
    key != "" && forall i | 0 <= i < |key| :: 'a' <= key[i] <= 'z' || key[i] == '_'
  }

  /** Letters of either case and underscores. */
  predicate Word(key: string) {
    key != "" && forall i | 0 <= i < |key| :: 'a' <= key[i] <= 'z' || 'A' <= key[i] <= 'Z' || key[i] == '_'
  }

  /** The program's own names will do. */
  lemma KeysUsable()
    ensures KEYS.Usable()
  {
    assert KEYS.host[7] == 'h' && KEYS.port[7] == 'p' && KEYS.host[0] == 'c' && KEYS.logging[0] == 'l' && KEYS.level[8] == 'l';
    assert KEYS.logging[8] == 'e';
  }

  // ---------------------------------------------------------------- saving

  function Entry(key: string, value: string): string {
    key + " = " + value
  }

  function Line(key: string, value: string): string {
    Entry(key, value) + "\n"
  }

  function SavedHost(c: Config): string {
    if c.host != "" then c.host else DEFAULT_HOST
  }

  function SavedPort(c: Config): nat {
    if c.port > 0 then c.port else DEFAULT_PORT
  }

  function Flag(b: bool): string {
    if b then "true" else "false"
  }

  function Save(k: Keys, c: Config): string {
    Line(k.host, SavedHost(c)) +
    (Line(k.port, Digits(SavedPort(c))) +
     (Line(k.logging, Flag(c.logging)) + Line(k.level, Digits(c.level))))
  }

  // ---------------------------------------------------------------- loading

  /** What has been read so far. */
  datatype Parsed = Parsed(host: string, port: nat, logging: bool, level: nat)

  const Defaults := Parsed("", DEFAULT_PORT, false, 3)

  function StripComment(line: string): string {
    line[..First(line, Comment)]
  }

  function Assign(k: Keys, p: Parsed, key: string, value: string): Parsed {
    if key == k.host then p.(host := value)
    else if key == k.port then
      var port := Atoi(value);
      if 0 < port <= 65535 then p.(port := port) else p
    else if key == k.logging then p.(logging := value == "true" || value == "1")
    else if key == k.level then
      var level := Atoi(value);
      if 1 <= level <= 5 then p.(level := level) else p
    else p
  }

  function ParseLine(k: Keys, p: Parsed, line: string): Parsed {
    var entry := Trim(StripComment(line));
    var eq := First(entry, Equals);
    if eq == |entry| then p else Assign(k, p, Lower(Trim(entry[..eq])), Trim(entry[eq + 1..]))
  }

  function ParseLines(k: Keys, p: Parsed, lines: seq<string>): Parsed
    decreases |lines|
  {
    if lines == [] then p else ParseLines(k, ParseLine(k, p, lines[0]), lines[1..])
  }

  /** The characters up to the terminator, as far as the host field has room. */
  function CopyHost(s: string): string {
    s[..Min(First(s, Nul), HOST_CAPACITY)]
  }

  /** Applies what was read; without a host, host and port stay as they are. */
  function Apply(p: Parsed, c: Config): Config {
    if p.host == "" then c.(logging := p.logging, level := p.level)
    else Config(CopyHost(p.host), p.port, p.logging, p.level)
  }

  /** An empty file changes nothing. */
  function Load(k: Keys, text: string, c: Config): Config {
    if text == "" then c else Apply(ParseLines(k, Defaults, Lines(text)), c)
  }

  class LdnConfig {
    const keys: Keys
    var config: Config

    constructor ()
      ensures keys == KEYS && config == Config("", DEFAULT_PORT, false, 1)
    {
      keys, config := KEYS, Config("", DEFAULT_PORT, false, 1);
    }

    /** The line loop over the file's content. */
    method Parse(content: string) returns (parsed: Parsed)
      ensures parsed == ParseLines(keys, Defaults, Lines(content))
    {
      parsed := Defaults;
      var start := 0;
      assert content[0..] == content;
      while start < |content|
        invariant 0 <= start <= |content| + 1
        invariant ParseFrom(keys, Defaults, content, 0) == ParseFrom(keys, parsed, content, start)
      {
        var line;
        line, start := NextLine(content, start, parsed);
        parsed := ParseLine(keys, parsed, line);
      }
      ParseNone(keys, parsed, content, start);
    }

    /** The line that starts at `start`, and where the next one does. */
    method NextLine(content: string, start: nat, ghost parsed: Parsed) returns (line: string, next: nat)
      requires start < |content|
      ensures start < next <= |content| + 1
      ensures ParseFrom(keys, parsed, content, start) == ParseFrom(keys, ParseLine(keys, parsed, line), content, next)
    {
      var nl := First(content[start..], Newline);
      line, next := content[start..][..nl], start + nl + 1;
      ParseStep(keys, parsed, content, start, line, next);
    }

    method LoadConfigFromIni(content: string)
      modifies this
      ensures config == Load(keys, content, old(config))
    {
      if content == "" { return; }
      var parsed := Parse(content);
      if parsed.host != "" {
        config := config.(host := CopyHost(parsed.host), port := parsed.port);
      }
      config := config.(logging := parsed.logging, level := parsed.level);
    }

    method SaveConfigToIni() returns (content: string)
      ensures content == Save(keys, config)
    {
      content := Line(keys.host, if |config.host| > 0 then config.host else DEFAULT_HOST);
      ghost var l1 := content;
      ghost var l2, l3, l4 := Line(keys.port, Digits(SavedPort(config))), Line(keys.logging, Flag(config.logging)), Line(keys.level, Digits(config.level));
      content := content + Line(keys.port, Digits(if config.port > 0 then config.port else DEFAULT_PORT));
      content := content + Line(keys.logging, Flag(config.logging));
      content := content + Line(keys.level, Digits(config.level));
      Assoc(l1 + l2, l3, l4);
      Assoc(l1, l2, l3 + l4);
    }

    /** Levels outside 1..5 are ignored. */
    method SetLoggingLevel(level: nat)
      modifies this
      ensures config == old(config).(level := if 1 <= level <= 5 then level else old(config).level)
    {
      if 1 <= level <= 5 { config := config.(level := level); }
    }
  }

  /** Reading on from position `start`. */
  function ParseFrom(k: Keys, p: Parsed, content: string, start: nat): Parsed {
    if start <= |content| then ParseLines(k, p, Lines(content[start..])) else p
  }

  lemma ParseStep(k: Keys, p: Parsed, content: string, start: nat, line: string, next: nat)
    requires start < |content| && start < next <= |content| + 1 && next == start + First(content[start..], Newline) + 1
    requires line == content[start..][..next - start - 1]
    ensures ParseFrom(k, p, content, start) == ParseFrom(k, ParseLine(k, p, line), content, next)
  {
    var rest := content[start..];
    if next <= |content| {
      assert rest[next - start..] == content[next..];
      ParseCons(k, p, line, Lines(content[next..]));
    } else {
      ParseCons(k, p, line, []);
    }
  }

  lemma ParseNone(k: Keys, p: Parsed, content: string, start: nat)
    requires start >= |content|
    ensures ParseFrom(k, p, content, start) == p
  {
  }

  lemma ParseCons(k: Keys, p: Parsed, line: string, rest: seq<string>)
    ensures ParseLines(k, p, [line] + rest) == ParseLines(k, ParseLine(k, p, line), rest)
  {
    assert ([line] + rest)[1..] == rest;
  }

  // ---------------------------------------------------------------- one entry

  /** Text that stays one line and is not cut at a comment. */
  predicate OneLine(value: string) {
    Free(value, Newline) && Free(value, Comment)
  }

  lemma {:induction false} LowerPlain(key: string)
    requires forall i | 0 <= i < |key| :: 'a' <= key[i] <= 'z' || key[i] == '_'
    ensures Lower(key) == key
  {
    if key != "" {
      LowerPlain(key[1..]);
      assert key == [key[0]] + key[1..];
    }
  }

  lemma KeyTrim(key: string)
    requires Word(key)
    ensures Trim(key + " ") == key
  {
    TrimRightAppend(key, " ");
    assert " "[..0] == "";
  }

  /** A written entry without comment marks is kept whole, and trimmed only after its value. */
  lemma EntryTrim(key: string, value: string)
    requires Word(key) && OneLine(value)
    ensures Free(Entry(key, value), Newline) && StripComment(Entry(key, value)) == Entry(key, value)
    ensures Trim(Entry(key, value)) == (key + " =") + TrimRight([' '] + value)
  {
    var line, front, back := Entry(key, value), key + " =", [' '] + value;
    assert line == front + back;
    FirstIs(line, Comment, |line|);
    TrimRightAppend(front, back);
  }

  /** An entry is read as its key, in whatever case, and its trimmed value. */
  lemma EntryRead(k: Keys, p: Parsed, key: string, value: string)
    requires Word(key) && OneLine(value)
    ensures ParseLine(k, p, Entry(key, value)) == Assign(k, p, Lower(key), Trim(value))
  {
    EntryTrim(key, value);
    var back := TrimRight([' '] + value);
    var entry := (key + " =") + back;
    FirstIs(entry, Equals, |key| + 1);
    assert entry[..|key| + 1] == key + " ";
    assert entry[|key| + 2..] == back;
    TrimTail(value);
    KeyTrim(key);
  }

  /** A written entry is read back as its key and its trimmed value. */
  lemma ParseEntry(k: Keys, p: Parsed, key: string, value: string)
    requires PlainKey(key) && OneLine(value)
    ensures ParseLine(k, p, Entry(key, value)) == Assign(k, p, key, Trim(value))
  {
    EntryRead(k, p, key, value);
    LowerPlain(key);
  }

  /** A printed number is one tidy line and comes back as itself. */
  lemma DigitsPlain(n: nat)
    ensures OneLine(Digits(n)) && Trim(Digits(n)) == Digits(n) && Atoi(Digits(n)) == n
  {
    var s := Digits(n);
    assert Digit(s[0]) && Digit(s[|s| - 1]);
    TrimFixed(s);
    AtoiDigits(n);
  }

  lemma FlagPlain(b: bool)
    ensures OneLine(Flag(b)) && Trim(Flag(b)) == Flag(b) && (Flag(b) == "true" || Flag(b) == "1" <==> b)
  {
    TrimFixed(Flag(b));
  }

  // ---------------------------------------------------------------- the whole file

  /** A line in front of the rest of a file is parsed first. */
  lemma ParseFirst(k: Keys, p: Parsed, key: string, value: string, rest: string)
    requires PlainKey(key) && OneLine(value)
    ensures ParseLines(k, p, Lines(Line(key, value) + rest)) == ParseLines(k, Assign(k, p, key, Trim(value)), Lines(rest))
  {
    EntryTrim(key, value);
    LinesCons(Entry(key, value), rest);
    ParseCons(k, p, Entry(key, value), Lines(rest));
    ParseEntry(k, p, key, value);
  }

  /** What loading makes of a saved file whose host is one line without comment marks. */
  function Reread(c: Config): Parsed {
    Parsed(Trim(SavedHost(c)),
           if SavedPort(c) <= 65535 then SavedPort(c) else DEFAULT_PORT,
           c.logging,
           if 1 <= c.level <= 5 then c.level else 3)
  }

  lemma ParseSaved(k: Keys, c: Config)
    requires k.Usable() && OneLine(SavedHost(c))
    ensures ParseLines(k, Defaults, Lines(Save(k, c))) == Reread(c)
  {
    DigitsPlain(SavedPort(c));
    DigitsPlain(c.level);
    FlagPlain(c.logging);
    var t4 := Line(k.level, Digits(c.level));
    var t3 := Line(k.logging, Flag(c.logging)) + t4;
    var t2 := Line(k.port, Digits(SavedPort(c))) + t3;
    var p1 := Defaults.(host := Trim(SavedHost(c)));
    var p2 := p1.(port := Reread(c).port);
    var p3 := p2.(logging := c.logging);
    ParseFirst(k, Defaults, k.host, SavedHost(c), t2);
    ParseFirst(k, p1, k.port, Digits(SavedPort(c)), t3);
    ParseFirst(k, p2, k.logging, Flag(c.logging), t4);
    ParseFirst(k, p3, k.level, Digits(c.level), "");
    assert t4 + "" == t4;
  }

  /** Loading never produces a host with a line break or a comment mark. */
  lemma {:induction false} ParsedHostClean(k: Keys, p: Parsed, lines: seq<string>)
    requires OneLine(p.host) && forall i | 0 <= i < |lines| :: Free(lines[i], Newline)
    ensures OneLine(ParseLines(k, p, lines).host)
    decreases |lines|
  {
    if lines != [] {
      LineHostClean(k, p, lines[0]);
      ParsedHostClean(k, ParseLine(k, p, lines[0]), lines[1..]);
    }
  }

  lemma LineHostClean(k: Keys, p: Parsed, line: string)
    requires OneLine(p.host) && Free(line, Newline)
    ensures OneLine(ParseLine(k, p, line).host)
  {
    var stripped := StripComment(line);
    FirstFound(line, Comment);
    assert OneLine(stripped);
    TrimClean(stripped);
    var entry := Trim(stripped);
    var eq := First(entry, Equals);
    if eq < |entry| {
      TrimClean(entry[eq + 1..]);
    }
  }

  lemma TrimClean(s: string)
    requires OneLine(s)
    ensures OneLine(Trim(s))
  {
    TrimIs(s);
  }

  lemma {:induction false} LinesFree(text: string)
    ensures forall i | 0 <= i < |Lines(text)| :: Free(Lines(text)[i], Newline)
    decreases |text|
  {
    if text != "" {
      var nl := First(text, Newline);
      FirstFound(text, Newline);
      if nl < |text| { LinesFree(text[nl + 1..]); }
    }
  }

  /** A host field holds no terminator and no more than fits; it keeps all of a host that fits. */
  lemma CopiedHost(s: string)
    ensures |CopyHost(s)| <= HOST_CAPACITY && Free(CopyHost(s), Nul)
    ensures OneLine(s) ==> OneLine(CopyHost(s))
    ensures |s| <= HOST_CAPACITY && Free(s, Nul) ==> CopyHost(s) == s
  {
    FirstFound(s, Nul);
    if Free(s, Nul) { FirstIs(s, Nul, |s|); }
  }

  // ---------------------------------------------------------------- round trips

  /** The configurations that survive: a host that fits on its line and in its field, a real port, a real level. */
  predicate Storable(c: Config) {
    && c.host != "" && |c.host| <= HOST_CAPACITY && Tidy(c.host) && OneLine(c.host) && Free(c.host, Nul)
    && 1 <= c.port <= 65535 && 1 <= c.level <= 5
  }

  lemma SavedNotEmpty(k: Keys, c: Config)
    ensures Save(k, c) != ""
  {
    assert |Line(k.host, SavedHost(c))| > 0;
  }

  /** Loading a saved storable configuration restores all four settings, whatever was set before. */
  lemma RoundTrip(c: Config, before: Config)
    requires Storable(c)
    ensures Load(KEYS, Save(KEYS, c), before) == c
  {
    KeysUsable();
    RoundTripFor(KEYS, c, before);
  }

  lemma RoundTripFor(k: Keys, c: Config, before: Config)
    requires Storable(c) && k.Usable()
    ensures Load(k, Save(k, c), before) == c
  {
    SavedNotEmpty(k, c);
    ParseSaved(k, c);
    TrimFixed(c.host);
    CopiedHost(c.host);
  }

  /** Loading what an unstorable configuration saved gives something else, unless an unstorable one was set before. */
  lemma UnstorableChanges(k: Keys, c: Config, before: Config)
    requires k.Usable() && !Storable(c) && Storable(before)
    ensures Load(k, Save(k, c), before) != c
  {
    var p := ParseLines(k, Defaults, Lines(Save(k, c)));
    SavedNotEmpty(k, c);
    assert OneLine(p.host) && 1 <= p.port <= 65535 && 1 <= p.level <= 5 by {
      LinesFree(Save(k, c));
      ParsedHostClean(k, Defaults, Lines(Save(k, c)));
      ParsedRanges(k, Defaults, Lines(Save(k, c)));
    }
    CopiedHost(p.host);
    if Load(k, Save(k, c), before) == c && p.host != "" {
      HostComesBack(k, c);
    }
  }

  /** A host that comes back through the file was neither empty nor untidy. */
  lemma HostComesBack(k: Keys, c: Config)
    requires k.Usable() && OneLine(c.host) && |c.host| <= HOST_CAPACITY && Free(c.host, Nul)
    requires CopyHost(ParseLines(k, Defaults, Lines(Save(k, c))).host) == c.host
    ensures c.host != "" && Tidy(c.host)
  {
    var h := SavedHost(c);
    DefaultHostPlain();
    ParseSaved(k, c);
    TrimFits(h);
    TrimFixed(h);
  }

  lemma DefaultHostPlain()
    ensures DEFAULT_HOST != "" && OneLine(DEFAULT_HOST) && Tidy(DEFAULT_HOST)
    ensures |DEFAULT_HOST| <= HOST_CAPACITY && Free(DEFAULT_HOST, Nul)
  {
  }

  lemma TrimFits(s: string)
    requires |s| <= HOST_CAPACITY && Free(s, Nul)
    ensures CopyHost(Trim(s)) == Trim(s)
  {
    TrimIs(s);
    CopiedHost(Trim(s));
  }

  /** Ports and levels that are read are always in range. */
  lemma {:induction false} ParsedRanges(k: Keys, p: Parsed, lines: seq<string>)
    requires 1 <= p.port <= 65535 && 1 <= p.level <= 5
    ensures 1 <= ParseLines(k, p, lines).port <= 65535 && 1 <= ParseLines(k, p, lines).level <= 5
    decreases |lines|
  {
    if lines != [] {
      ParsedRanges(k, ParseLine(k, p, lines[0]), lines[1..]);
    }
  }

  /** The round trip holds from every starting point exactly for the storable configurations. */
  lemma RoundTripExact(c: Config)
    ensures (forall before :: Load(KEYS, Save(KEYS, c), before) == c) <==> Storable(c)
  {
    KeysUsable();
    if Storable(c) {
      forall before ensures Load(KEYS, Save(KEYS, c), before) == c { RoundTripFor(KEYS, c, before); }
    } else {
      var before := Config("x", 1, false, 1);
      UnstorableChanges(KEYS, c, before);
    }
  }

  // ---------------------------------------------------------------- saving what was loaded

  lemma FirstLine(key: string, value: string, rest: string)
    requires PlainKey(key) && OneLine(value)
    ensures Lines(Line(key, value) + rest) == [Entry(key, value)] + Lines(rest)
  {
    EntryTrim(key, value);
    LinesCons(Entry(key, value), rest);
  }

  /** The four lines of a saved file. */
  lemma SavedLines(k: Keys, c: Config)
    requires k.Usable() && OneLine(SavedHost(c))
    ensures Lines(Save(k, c)) ==
            [Entry(k.host, SavedHost(c))] + ([Entry(k.port, Digits(SavedPort(c)))] +
            ([Entry(k.logging, Flag(c.logging))] + ([Entry(k.level, Digits(c.level))] + [])))
  {
    DigitsPlain(SavedPort(c));
    DigitsPlain(c.level);
    FlagPlain(c.logging);
    var t4 := Line(k.level, Digits(c.level));
    var t3 := Line(k.logging, Flag(c.logging)) + t4;
    var t2 := Line(k.port, Digits(SavedPort(c))) + t3;
    FirstLine(k.level, Digits(c.level), "");
    assert t4 + "" == t4;
    FirstLine(k.logging, Flag(c.logging), t4);
    FirstLine(k.port, Digits(SavedPort(c)), t3);
    FirstLine(k.host, SavedHost(c), t2);
  }

  lemma SameHeads<T>(a: T, more: seq<T>, b: T, rest: seq<T>)
    requires [a] + more == [b] + rest
    ensures a == b && more == rest
  {
    assert ([a] + more)[0] == a && ([b] + rest)[0] == b && ([a] + more)[1..] == more && ([b] + rest)[1..] == rest;
  }

  lemma EntryValue(key: string, a: string, b: string)
    requires Entry(key, a) == Entry(key, b)
    ensures a == b
  {
    assert Entry(key, a)[|key| + 3..] == a && Entry(key, b)[|key| + 3..] == b;
  }

  /** A saved file tells its host, port and level. */
  lemma SaveInjective(k: Keys, c: Config, d: Config)
    requires k.Usable() && OneLine(SavedHost(c)) && OneLine(SavedHost(d)) && Save(k, c) == Save(k, d)
    ensures SavedHost(c) == SavedHost(d) && SavedPort(c) == SavedPort(d) && c.level == d.level
  {
    SavedLines(k, c);
    SavedLines(k, d);
    var c4, d4 := [Entry(k.level, Digits(c.level))] + [], [Entry(k.level, Digits(d.level))] + [];
    var c3, d3 := [Entry(k.logging, Flag(c.logging))] + c4, [Entry(k.logging, Flag(d.logging))] + d4;
    var c2, d2 := [Entry(k.port, Digits(SavedPort(c)))] + c3, [Entry(k.port, Digits(SavedPort(d)))] + d3;
    SameHeads(Entry(k.host, SavedHost(c)), c2, Entry(k.host, SavedHost(d)), d2);
    SameHeads(Entry(k.port, Digits(SavedPort(c))), c3, Entry(k.port, Digits(SavedPort(d))), d3);
    SameHeads(Entry(k.logging, Flag(c.logging)), c4, Entry(k.logging, Flag(d.logging)), d4);
    SameHeads(Entry(k.level, Digits(c.level)), [], Entry(k.level, Digits(d.level)), []);
    EntryValue(k.host, SavedHost(c), SavedHost(d));
    EntryValue(k.port, Digits(SavedPort(c)), Digits(SavedPort(d)));
    EntryValue(k.level, Digits(c.level), Digits(d.level));
    AtoiDigits(SavedPort(c));
    AtoiDigits(SavedPort(d));
    AtoiDigits(c.level);
    AtoiDigits(d.level);
  }

  /** What a load makes of a saved one-line host. */
  lemma LoadSaved(k: Keys, c: Config)
    requires k.Usable() && OneLine(SavedHost(c))
    ensures var h, p, d := SavedHost(c), Reread(c), Load(k, Save(k, c), c);
            d == if Trim(h) == "" then c.(logging := p.logging, level := p.level)
                 else Config(CopyHost(Trim(h)), p.port, p.logging, p.level)
  {
    SavedNotEmpty(k, c);
    ParseSaved(k, c);
  }

  /** The saved values survive a load: the level is a real one, and the host is blank, or it and the port fit and are tidy. */
  predicate Survives(c: Config) {
    && 1 <= c.level <= 5
    && (Trim(SavedHost(c)) == "" || Storable(Config(SavedHost(c), SavedPort(c), c.logging, c.level)))
  }

  /**
   Saving, loading and saving again gives the same text if and only if the
   saved values survive a load - also for an empty host or port 0, for which
   defaults are saved.
   */
  lemma SaveLoadSave(c: Config)
    requires OneLine(SavedHost(c))
    ensures Save(KEYS, Load(KEYS, Save(KEYS, c), c)) == Save(KEYS, c) <==> Survives(c)
  {
    KeysUsable();
    SaveLoadSaveFor(KEYS, c);
  }

  lemma SaveLoadSaveFor(k: Keys, c: Config)
    requires k.Usable() && OneLine(SavedHost(c))
    ensures Save(k, Load(k, Save(k, c), c)) == Save(k, c) <==> Survives(c)
  {
    LoadSaved(k, c);
    if Trim(SavedHost(c)) == "" {
      TrimFixed(DEFAULT_HOST);
      DefaultHostPlain();
      var d := Load(k, Save(k, c), c);
      if Save(k, d) == Save(k, c) { SaveInjective(k, c, d); }
    } else if Survives(c) {
      TrimFixed(SavedHost(c));
      CopiedHost(SavedHost(c));
    } else {
      TextChanges(k, c);
    }
  }

  lemma TextChanges(k: Keys, c: Config)
    requires k.Usable() && OneLine(SavedHost(c)) && Trim(SavedHost(c)) != "" && !Survives(c)
    ensures Save(k, Load(k, Save(k, c), c)) != Save(k, c)
  {
    var h, d := SavedHost(c), Load(k, Save(k, c), c);
    LoadSaved(k, c);
    DefaultHostPlain();
    TrimClean(h);
    CopiedHost(Trim(h));
    if Save(k, d) == Save(k, c) {
      SaveInjective(k, c, d);
      HostKept(h);
    }
  }

  /** A host that is the same after trimming and copying, or the default one, fits and is tidy. */
  lemma HostKept(h: string)
    requires h == CopyHost(Trim(h)) || h == DEFAULT_HOST
    ensures |h| <= HOST_CAPACITY && Tidy(h) && Free(h, Nul)
  {
    DefaultHostPlain();
    CopiedHost(Trim(h));
    TrimIs(h);
    if h == CopyHost(Trim(h)) {
      assert |Trim(h)| <= |h|;
      assert Trim(h) == h;
      TrimFixed(h);
    }
  }

  // ---------------------------------------------------------------- the format, in literals

  /** The text of a saved file; an empty host is saved as 0.0.0.0 and port 0 as 30456. */
  lemma FileFormat(c: Config)
    ensures Save(KEYS, c) ==
            ("custom_host = " + (if c.host == "" then "0.0.0.0" else c.host) + "\n") +
            (("custom_port = " + Digits(if c.port == 0 then 30456 else c.port) + "\n") +
             (("logging_enabled = " + (if c.logging then "true" else "false") + "\n") +
              ("logging_level = " + Digits(c.level) + "\n")))
  {
    Joined("custom_host", SavedHost(c), "custom_host = ");
    Joined("custom_port", Digits(SavedPort(c)), "custom_port = ");
    Joined("logging_enabled", Flag(c.logging), "logging_enabled = ");
    Joined("logging_level", Digits(c.level), "logging_level = ");
  }

  lemma Joined(key: string, value: string, front: string)
    requires front == key + " = "
    ensures Line(key, value) == front + value + "\n"
  {
  }

  /** Logging is on exactly for the values true and 1. */
  lemma FlagMeaning(p: Parsed, value: string)
    requires OneLine(value)
    ensures ParseLine(KEYS, p, Entry("logging_enabled", value)) == p.(logging := Trim(value) == "true" || Trim(value) == "1")
  {
    KeysUsable();
    ParseEntry(KEYS, p, KEYS.logging, value);
  }

  /** A port counts if it is between 1 and 65535, a level if it is between 1 and 5; any other value changes nothing. */
  lemma NumberMeaning(p: Parsed, value: string)
    requires OneLine(value)
    ensures ParseLine(KEYS, p, Entry("custom_port", value)) ==
            if 1 <= Atoi(Trim(value)) <= 65535 then p.(port := Atoi(Trim(value))) else p
    ensures ParseLine(KEYS, p, Entry("logging_level", value)) ==
            if 1 <= Atoi(Trim(value)) <= 5 then p.(level := Atoi(Trim(value))) else p
  {
    KeysUsable();
    ParseEntry(KEYS, p, KEYS.port, value);
    ParseEntry(KEYS, p, KEYS.level, value);
  }

  /** What follows a # or a ; on a line has no effect. */
  lemma CommentsIgnored(k: Keys, p: Parsed, line: string, comment: string)
    requires forall i | 0 <= i < |line| :: line[i] != '#' && line[i] != ';'
    ensures ParseLine(k, p, line + "#" + comment) == ParseLine(k, p, line)
    ensures ParseLine(k, p, line + ";" + comment) == ParseLine(k, p, line)
  {
    FirstIs(line, Comment, |line|);
    FirstIs(line + "#" + comment, Comment, |line|);
    FirstIs(line + ";" + comment, Comment, |line|);
    assert line[..|line|] == line && (line + "#" + comment)[..|line|] == line && (line + ";" + comment)[..|line|] == line;
  }

  /** Blanks, tabs and carriage returns in front of a line have no effect. */
  lemma BlanksIgnored(k: Keys, p: Parsed, c: char, line: string)
    requires c == ' ' || c == '\t' || c == '\r'
    ensures ParseLine(k, p, [c] + line) == ParseLine(k, p, line)
  {
    var longer, n := [c] + line, First(line, Comment);
    assert longer[1..] == line && First(longer, Comment) == n + 1;
    assert longer[..n + 1] == [c] + line[..n];
    var a := [c] + line[..n];
    assert a[1..] == line[..n];
  }

  /** A file with nothing but a host sets everything else to the defaults. */
  lemma HostAlone(c: Config, host: string)
    requires OneLine(host) && Trim(host) != ""
    ensures Load(KEYS, Line("custom_host", host), c) == Config(CopyHost(Trim(host)), 30456, false, 3)
  {
    KeysUsable();
    ParseFirst(KEYS, Defaults, KEYS.host, host, "");
    assert Line(KEYS.host, host) + "" == Line(KEYS.host, host);
  }

  /** Of a host, the first fifteen characters are kept. */
  lemma HostLength(s: string)
    requires forall i | 0 <= i < |s| :: s[i] != '\0'
    ensures CopyHost(s) == if |s| <= 15 then s else s[..15]
  {
    FirstIs(s, Nul, |s|);
  }

  /** What an empty file, or one without a host, sets: the level to 3 and logging off only if the file is not empty. */
  lemma WithoutHost(c: Config)
    ensures Load(KEYS, "", c) == c
    ensures Load(KEYS, "\n", c) == c.(logging := false, level := 3)
  {
    assert Lines("\n") == [""] by {
      FirstIs("\n", Newline, 0);
      assert "\n"[..0] == "" && "\n"[1..] == "";
    }
    assert ParseLine(KEYS, Defaults, "") == Defaults;
    assert [""][1..] == [];
  }
}
