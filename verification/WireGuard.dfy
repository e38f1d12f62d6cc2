/** Printing and reading WireGuard configuration: render_wireguard and read_setup of
    scripts/snarkypuss-configure.py, parse_wireguard and setup_document of scripts/snarkypuss-migrate.py. */
module WireGuard {
  import opened Prelude
  import Numerals

  // ---------------------------------------------------------------- Text

  predicate Space(c: char) { c == ' ' || c == '\t' || c == '\n' || c == '\r' }

  /** Text without blanks, commas or line breaks. */
  predicate Clean(text: string) {
    text != [] && forall c :: c in text ==> !Space(c) && c != ','
  }

  function StripEnd(text: string): (result: string)
    ensures text != [] && !Space(text[|text| - 1]) ==> result == text
  {
    if text != [] && Space(text[|text| - 1]) then StripEnd(text[..|text| - 1]) else text
  }

  function StripStart(text: string): (result: string)
    ensures text != [] && !Space(text[0]) ==> result == text
  {
    if text != [] && Space(text[0]) then StripStart(text[1..]) else text
  }

  function Strip(text: string): (result: string)
    ensures text != [] && !Space(text[0]) && !Space(text[|text| - 1]) ==> result == text
  {
    StripEnd(StripStart(text))
  }

  /** Text up to the first occurrence of `c`, and what follows it. */
  function SplitFirst(text: string, c: char): (parts: (string, string))
    ensures c in text ==> text == parts.0 + [c] + parts.1
    ensures c !in parts.0
    ensures c !in text ==> parts == (text, "")
  {
    if text == [] then ("", "")
    else if text[0] == c then ("", text[1..])
    else
      var rest := SplitFirst(text[1..], c);
      assert text == [text[0]] + text[1..];
      ([text[0]] + rest.0, rest.1)
  }

  lemma {:induction false} SplitFirstAt(left: string, c: char, right: string)
    requires c !in left
    ensures SplitFirst(left + [c] + right, c) == (left, right)
  {
    var text := left + [c] + right;
    if left != [] {
      assert text[1..] == left[1..] + [c] + right;
      SplitFirstAt(left[1..], c, right);
      assert text[0] == left[0] && [left[0]] + left[1..] == left;
    } else {
      assert text[1..] == right;
    }
  }

  /** splitlines, for line feeds. */
  function SplitLines(text: string): seq<string>
    decreases |text|
  {
    if text == [] then []
    else
      var parts := SplitFirst(text, '\n');
      [parts.0] + if '\n' in text then SplitLines(parts.1) else []
  }

  function JoinLines(lines: seq<string>): string {
    if lines == [] then "" else lines[0] + "\n" + JoinLines(lines[1..])
  }

  lemma {:induction false} SplitJoin(lines: seq<string>)
    requires forall line :: line in lines ==> '\n' !in line
    ensures SplitLines(JoinLines(lines)) == lines
  {
    if lines != [] {
      SplitFirstAt(lines[0], '\n', JoinLines(lines[1..]));
      SplitJoin(lines[1..]);
    }
  }

  function LowerChar(c: char): char {
    if 'A' <= c <= 'Z' then (c as int + 32) as char else c
  }

  function Lower(text: string): (result: string)
    ensures |result| == |text| && forall i :: 0 <= i < |text| ==> result[i] == LowerChar(text[i])
  {
    seq(|text|, i requires 0 <= i < |text| => LowerChar(text[i]))
  }

  /** int(text): decimal digits. */
  function ParseInt(text: string): Option<nat> { Numerals.Parse(text, 10) }

  /** int(text, 0): a 0x prefix selects base 16, and decimal numbers have no leading zeros. */
  function ParseAnyBase(text: string): Option<nat> {
    if |text| > 2 && text[0] == '0' && (text[1] == 'x' || text[1] == 'X') then Numerals.Parse(text[2..], 16)
    else if |text| > 1 && text[0] == '0' && exists c :: c in text && c != '0' then None
    else Numerals.Parse(text, 10)
  }

  /** format(n, "#x") */
  function PrintHex(n: nat): string { "0x" + Numerals.Print(n, 16) }

  lemma HexRoundTrip(n: nat)
    ensures ParseAnyBase(PrintHex(n)) == Some(n)
  {
    Numerals.PrintParse(n, 16);
    assert PrintHex(n)[2..] == Numerals.Print(n, 16);
  }

  lemma DigitsClean(n: nat, base: Numerals.Base)
    ensures Clean(Numerals.Print(n, base))
  {
    assert forall c :: c in Numerals.DIGITS ==> !Space(c) && c != ',';
  }

  // ---------------------------------------------------------------- Keys and addresses

  predicate Base64(c: char) {
    'A' <= c <= 'Z' || 'a' <= c <= 'z' || '0' <= c <= '9' || c == '+' || c == '/'
  }

  /** Forty-four base64 characters that decode to thirty-two bytes: one padding sign at the end. */
  predicate IsKey(text: string) {
    |text| == 44 && text[43] == '=' && forall i :: 0 <= i < 43 ==> Base64(text[i])
  }

  predicate IsInterfaceName(text: string) {
    1 <= |text| <= 15 && forall c :: c in text ==>
      'A' <= c <= 'Z' || 'a' <= c <= 'z' || '0' <= c <= '9' || c == '_' || c == '.' || c == '-'
  }

  /** The ipaddress module: canonical text of an interface address, whether the second address's
      network contains the first's host, and whether two addresses have the same host. */
  datatype Net = Net(canonical: string -> Option<string>, within: (string, string) -> bool,
      sameHost: (string, string) -> bool)

  ghost predicate Lawful(net: Net) {
    forall text :: net.canonical(text).Some? ==>
      Clean(net.canonical(text).value) && net.canonical(net.canonical(text).value) == net.canonical(text)
  }

  // ---------------------------------------------------------------- Rendering

  datatype Gateway = Gateway(
    interface: string, server: string, listenPort: nat, fwmark: nat,
    client: string, clientKey: string, keepalive: nat)

  /** What read_setup guarantees about a configuration, apart from the client differing from the server. */
  ghost predicate Accepted(net: Net, g: Gateway) {
    && IsInterfaceName(g.interface)
    && net.canonical(g.server) == Some(g.server) && net.canonical(g.client) == Some(g.client)
    && net.within(g.client, g.server)
    && 1 <= g.listenPort <= 65535 && g.fwmark <= 0xFFFF_FFFF && g.keepalive <= 65535
    && IsKey(g.clientKey)
  }

  function Setting(name: string, value: string): string { name + " = " + value }

  type Settings = seq<(string, string)>

  function SettingLines(settings: Settings): seq<string> {
    seq(|settings|, i requires 0 <= i < |settings| => Setting(settings[i].0, settings[i].1))
  }

  function InterfaceSettings(g: Gateway, privateKey: string): Settings {
    [("Address", g.server), ("ListenPort", Numerals.Print(g.listenPort, 10)), ("PrivateKey", privateKey),
     ("FwMark", PrintHex(g.fwmark)), ("SaveConfig", "false")]
  }

  function PeerSettings(g: Gateway): Settings {
    [("PublicKey", g.clientKey), ("AllowedIPs", g.client), ("PersistentKeepalive", Numerals.Print(g.keepalive, 10))]
  }

  const COMMENT := "# Generated by " + "scripts/snarkypuss-configure.py; " + "do not add firewall commands here."

  /** The first half of a rendered file: comment, header and interface settings. */
  function InterfaceHalf(g: Gateway, privateKey: string): seq<string> {
    [COMMENT, "[Interface]"] + SettingLines(InterfaceSettings(g, privateKey))
  }

  /** The second half: blank line, header and peer settings. */
  function PeerHalf(g: Gateway): seq<string> {
    ["", "[Peer]"] + SettingLines(PeerSettings(g))
  }

  function RenderLines(g: Gateway, privateKey: string): seq<string> {
    InterfaceHalf(g, privateKey) + PeerHalf(g)
  }

  /** render_wireguard */
  function Render(g: Gateway, privateKey: string): string { JoinLines(RenderLines(g, privateKey)) }

  // ---------------------------------------------------------------- Parsing

  datatype Error =
    | PeerCount | Duplicate(option: string) | Missing(option: string) | KeysDiffer | NoPrivateKey
    | BadAddress | OutsideNetwork | BadNumber | OutOfRange | BadKey
    | UnknownOption | BadName | SameInterface | SameHost | NoKeyFile | BadUpstreams

  /** The section being read; settings of sections with other names are skipped. */
  datatype Section = NoSection | InterfaceSection | PeerSection

  function SectionNamed(name: string): Section {
    if name == "Interface" then InterfaceSection else if name == "Peer" then PeerSection else NoSection
  }

  /** The variables of the scanning loop. */
  datatype Scan = Scan(section: Section, peers: nat, interface: seq<(string, string)>, peer: seq<(string, string)>,
      hooks: seq<string>)

  predicate IsHook(name: string) {
    var lower := Lower(name);
    lower == "postup" || lower == "postdown" || lower == "preup" || lower == "predown"
  }

  /** A scan with more options noted in the present section. */
  function Collected(s: Scan, entries: Settings): Scan {
    if s.section == InterfaceSection then s.(interface := s.interface + entries) else s.(peer := s.peer + entries)
  }

  /** One line of the file. */
  function ScanLine(s: Scan, raw: string): Scan {
    var line := Strip(raw);
    if line == "" || line[0] == '#' || line[0] == ';' then s
    else if line[0] == '[' && line[|line| - 1] == ']' then
      var section := SectionNamed(if |line| >= 2 then line[1..|line| - 1] else "");
      s.(section := section, peers := if section == PeerSection then s.peers + 1 else s.peers)
    else if '=' !in line || s.section == NoSection then s
    else
      var parts := SplitFirst(line, '=');
      var name, value := Strip(parts.0), Strip(parts.1);
      var entry := (Lower(name), value);
      var noted := Collected(s, [entry]);
      if IsHook(name) then noted.(hooks := noted.hooks + [name]) else noted
  }

  function Fold<S, T>(step: (S, T) -> S, s: S, items: seq<T>): S {
    if items == [] then s else step(Fold(step, s, items[..|items| - 1]), items[|items| - 1])
  }

  function ScanLines(s: Scan, lines: seq<string>): Scan { Fold(ScanLine, s, lines) }

  const UNREAD := Scan(NoSection, 0, [], [], [])

  /** The scanning loop of parse_wireguard. */
  method ScanFile(lines: seq<string>) returns (s: Scan)
    ensures s == ScanLines(UNREAD, lines)
  {
    s := UNREAD;
    for i := 0 to |lines|
      invariant s == ScanLines(UNREAD, lines[..i])
    {
      assert lines[..i + 1][..i] == lines[..i];
      s := ScanLine(s, lines[i]);
    }
    assert lines[..|lines|] == lines;
  }

  function ValuesOf(entries: seq<(string, string)>, option: string): seq<string> {
    if entries == [] then []
    else (if entries[0].0 == option then [entries[0].1] else []) + ValuesOf(entries[1..], option)
  }

  /** one(): at most one value. */
  function One(entries: seq<(string, string)>, option: string): (found: Result<Option<string>, Error>)
    ensures found.Err? ==> found.error == Duplicate(option)
  {
    var values := ValuesOf(entries, option);
    if |values| > 1 then Err(Duplicate(option)) else if values == [] then Ok(None) else Ok(Some(values[0]))
  }

  /** one(), required. */
  function Need(entries: seq<(string, string)>, option: string): (found: Result<string, Error>)
    ensures found.Err? ==> found.error in {Duplicate(option), Missing(option)}
  {
    var found := One(entries, option);
    if found.Err? then Err(found.error) else if found.value.None? then Err(Missing(option)) else Ok(found.value.value)
  }

  datatype Existing = Existing(gateway: Gateway, privateKey: string, hooks: seq<string>)

  /** Inline key and managed key file must agree when both are there. */
  function ChooseKey(inline: Option<string>, fileKey: Option<string>): (key: Result<string, Error>)
    ensures key.Err? ==> key.error in {KeysDiffer, NoPrivateKey}
  {
    var a, b := if inline.Some? then inline.value else "", if fileKey.Some? then Strip(fileKey.value) else "";
    if a != "" && b != "" && a != b then Err(KeysDiffer)
    else if a != "" then Ok(a) else if b != "" then Ok(b) else Err(NoPrivateKey)
  }

  /** The text before the first comma, stripped. */
  function FirstAddress(text: string): string { Strip(SplitFirst(text, ',').0) }

  /** Port, mark and keepalive, within their ranges; the keepalive may be missing or empty. */
  function ReadNumbers(s: Scan): (numbers: Result<(nat, nat, nat), Error>)
    ensures numbers.Err? ==> numbers.error in {
      BadNumber, OutOfRange, Missing("listenport"), Duplicate("listenport"), Missing("fwmark"), Duplicate("fwmark"),
      Duplicate("persistentkeepalive")}
    ensures numbers.Ok? ==> 1 <= numbers.value.0 <= 65535 && numbers.value.1 <= 0xFFFF_FFFF && numbers.value.2 <= 65535
  {
    var port := Need(s.interface, "listenport");
    if port.Err? then Err(port.error) else
    var listenPort := ParseInt(port.value);
    if listenPort.None? then Err(BadNumber) else
    var mark := Need(s.interface, "fwmark");
    if mark.Err? then Err(mark.error) else
    var fwmark := ParseAnyBase(mark.value);
    if fwmark.None? then Err(BadNumber) else
    var alive := One(s.peer, "persistentkeepalive");
    if alive.Err? then Err(alive.error) else
    var keepalive := if alive.value.None? || alive.value.value == "" then Some(25) else ParseInt(alive.value.value);
    if keepalive.None? then Err(BadNumber) else
    if !(1 <= listenPort.value <= 65535) || fwmark.value > 0xFFFF_FFFF || keepalive.value > 65535
    then Err(OutOfRange) else
    Ok((listenPort.value, fwmark.value, keepalive.value))
  }

  /** parse_wireguard after the scanning loop. */
  function Interpret(net: Net, interface: string, fileKey: Option<string>, s: Scan): Result<Existing, Error> {
    if s.peers != 1 then Err(PeerCount) else
    var inline := One(s.interface, "privatekey");
    if inline.Err? then Err(inline.error) else
    var key := ChooseKey(inline.value, fileKey);
    if key.Err? then Err(key.error) else
    var address := Need(s.interface, "address");
    if address.Err? then Err(address.error) else
    var allowed := Need(s.peer, "allowedips");
    if allowed.Err? then Err(allowed.error) else
    var server, client := net.canonical(FirstAddress(address.value)), net.canonical(FirstAddress(allowed.value));
    if server.None? || client.None? then Err(BadAddress) else
    if !net.within(client.value, server.value) then Err(OutsideNetwork) else
    var numbers := ReadNumbers(s);
    if numbers.Err? then Err(numbers.error) else
    if !IsKey(key.value) then Err(BadKey) else
    var public := Need(s.peer, "publickey");
    if public.Err? then Err(public.error) else
    if !IsKey(public.value) then Err(BadKey) else
    var (listenPort, fwmark, keepalive) := numbers.value;
    var gateway := Gateway(interface, server.value, listenPort, fwmark, client.value, public.value, keepalive);
    Ok(Existing(gateway, key.value, s.hooks))
  }

  /** parse_wireguard of a file's text. */
  function Parse(net: Net, interface: string, fileKey: Option<string>, text: string): Result<Existing, Error> {
    Interpret(net, interface, fileKey, ScanLines(UNREAD, SplitLines(text)))
  }

  // ---------------------------------------------------------------- Round trip

  lemma KeyIsClean(key: string)
    requires IsKey(key)
    ensures Clean(key)
  {
    forall c | c in key ensures !Space(c) && c != ',' {
      var i :| 0 <= i < |key| && key[i] == c;
    }
  }

  /** A name that is neither comment, section header nor hook. */
  predicate PlainName(name: string) {
    && Clean(name) && '=' !in name && name[0] != '#' && name[0] != ';' && name[0] != '[' && !IsHook(name)
  }

  /** A plain name and a value that survives stripping. */
  predicate PlainSetting(setting: (string, string)) {
    PlainName(setting.0) && Clean(setting.1)
  }

  lemma CollectedAgain(s: Scan, first: Settings, second: Settings)
    ensures Collected(Collected(s, first), second) == Collected(s, first + second) &&
      Collected(s, first).section == s.section
    ensures Collected(s, []) == s
  {
    assert (s.interface + first) + second == s.interface + (first + second);
    assert (s.peer + first) + second == s.peer + (first + second);
    assert s.interface + [] == s.interface && s.peer + [] == s.peer;
  }

  /** A setting line yields its name, lower-cased, and its value, even when the value contains `=`. */
  lemma SettingScans(s: Scan, name: string, value: string)
    requires PlainSetting((name, value)) && (s.section != NoSection)
    ensures ScanLine(s, Setting(name, value)) == Collected(s, [(Lower(name), value)])
    ensures '\n' !in Setting(name, value)
  {
    var line := Setting(name, value);
    assert value[|value| - 1] in value && name[0] in name && name[|name| - 1] in name && value[0] in value;
    assert line == (name + " ") + ['='] + (" " + value);
    SplitFirstAt(name + " ", '=', " " + value);
    assert Strip(line) == line;
    StripAfter(name);
    StripBefore(value);
  }

  function Lowered(settings: Settings): Settings {
    seq(|settings|, i requires 0 <= i < |settings| => (Lower(settings[i].0), settings[i].1))
  }

  /** A block of settings is collected in order. */
  lemma SettingsScan(s: Scan, settings: Settings)
    requires forall setting :: setting in settings ==> PlainSetting(setting)
    requires s.section != NoSection
    ensures ScanLines(s, SettingLines(settings)) == Collected(s, Lowered(settings))
    ensures forall line :: line in SettingLines(settings) ==> '\n' !in line
  {
    var entries := Lowered(settings);
    var stages := seq(|settings| + 1, i requires 0 <= i <= |settings| => Collected(s, entries[..i]));
    forall i | 0 <= i < |settings|
      ensures ScanLine(stages[i], SettingLines(settings)[i]) == stages[i + 1] && '\n' !in SettingLines(settings)[i]
    {
      assert settings[i] in settings;
      CollectedAgain(s, entries[..i], [entries[i]]);
      assert entries[..i] + [entries[i]] == entries[..i + 1];
      SettingScans(stages[i], settings[i].0, settings[i].1);
    }
    CollectedAgain(s, [], []);
    FoldStages(ScanLine, s, SettingLines(settings), stages);
    assert entries[..|settings|] == entries;
  }

  /** A fold that is known step by step. */
  lemma {:induction false} FoldStages<S, T>(step: (S, T) -> S, s: S, items: seq<T>, stages: seq<S>)
    requires |stages| == |items| + 1 && stages[0] == s
    requires forall i :: 0 <= i < |items| ==> step(stages[i], items[i]) == stages[i + 1]
    ensures Fold(step, s, items) == stages[|items|]
  {
    if items != [] { FoldStages(step, s, items[..|items| - 1], stages[..|items|]); }
  }

  /** Folding in two parts. */
  lemma {:induction false} FoldConcat<S, T>(step: (S, T) -> S, s: S, first: seq<T>, second: seq<T>)
    ensures Fold(step, s, first + second) == Fold(step, Fold(step, s, first), second)
  {
    if second == [] {
      assert first + second == first;
    } else {
      FoldConcat(step, s, first, second[..|second| - 1]);
      assert (first + second)[..|first + second| - 1] == first + second[..|second| - 1];
    }
  }

  lemma StripAfter(name: string)
    requires Clean(name)
    ensures Strip(name + " ") == name
  {
    assert name[0] in name && name[|name| - 1] in name;
    assert (name + " ")[..|name|] == name;
  }

  lemma StripBefore(value: string)
    requires Clean(value)
    ensures Strip(" " + value) == value
  {
    assert value[0] in value && value[|value| - 1] in value;
    assert (" " + value)[1..] == value;
  }

  lemma CommentScans(s: Scan)
    ensures ScanLine(s, COMMENT) == s
  {
    assert COMMENT[0] == '#' && COMMENT[|COMMENT| - 1] == '.';
  }

  lemma InterfaceHeadScans()
    ensures ScanLine(UNREAD, "[Interface]") == UNREAD.(section := InterfaceSection)
  {
    assert "[Interface]"[1..10] == "Interface";
  }

  lemma HeaderScans()
    ensures ScanLines(UNREAD, [COMMENT, "[Interface]"]) == UNREAD.(section := InterfaceSection)
  {
    CommentScans(UNREAD);
    InterfaceHeadScans();
    FoldStages(ScanLine, UNREAD, [COMMENT, "[Interface]"], [UNREAD, UNREAD, UNREAD.(section := InterfaceSection)]);
  }

  lemma HeadersWhole()
    ensures '\n' !in COMMENT && '\n' !in "[Interface]" && '\n' !in "[Peer]"
  {
    var a, b, c := "# Generated by ", "scripts/snarkypuss-configure.py; ", "do not add firewall commands here.";
    assert '\n' !in a && '\n' !in b && '\n' !in c;
  }

  lemma BlankScans(s: Scan)
    ensures ScanLine(s, "") == s
  {
  }

  lemma PeerHeadScans(s: Scan)
    ensures ScanLine(s, "[Peer]") == s.(section := PeerSection, peers := s.peers + 1)
  {
    assert "[Peer]"[1..5] == "Peer";
  }

  lemma PeerHeaderScans(s: Scan)
    requires s.peers == 0
    ensures ScanLines(s, ["", "[Peer]"]) == s.(section := PeerSection, peers := 1)
  {
    BlankScans(s);
    PeerHeadScans(s);
    FoldStages(ScanLine, s, ["", "[Peer]"], [s, s, s.(section := PeerSection, peers := 1)]);
  }

  lemma AddressPlain()
    ensures PlainName("Address") && Lower("Address") == "address"
  {
    assert Lower("Address") == "address";
  }

  lemma ListenPortPlain()
    ensures PlainName("ListenPort") && Lower("ListenPort") == "listenport"
  {
    assert Lower("ListenPort") == "listenport";
  }

  lemma PrivateKeyPlain()
    ensures PlainName("PrivateKey") && Lower("PrivateKey") == "privatekey"
  {
    assert Lower("PrivateKey") == "privatekey";
  }

  lemma FwMarkPlain()
    ensures PlainName("FwMark") && Lower("FwMark") == "fwmark"
  {
    assert Lower("FwMark") == "fwmark";
  }

  lemma SaveConfigPlain()
    ensures PlainName("SaveConfig") && Lower("SaveConfig") == "saveconfig"
  {
    assert Lower("SaveConfig") == "saveconfig";
  }

  lemma PublicKeyPlain()
    ensures PlainName("PublicKey") && Lower("PublicKey") == "publickey"
  {
    assert Lower("PublicKey") == "publickey";
  }

  lemma AllowedIPsPlain()
    ensures PlainName("AllowedIPs") && Lower("AllowedIPs") == "allowedips"
  {
    assert Lower("AllowedIPs") == "allowedips";
  }

  lemma PersistentKeepalivePlain()
    ensures PlainName("PersistentKeepalive") && Lower("PersistentKeepalive") == "persistentkeepalive"
  {
    assert Lower("PersistentKeepalive") == "persistentkeepalive";
  }

  lemma InterfaceSettingsPlain(net: Net, g: Gateway, privateKey: string)
    requires Lawful(net) && Accepted(net, g) && IsKey(privateKey)
    ensures forall setting :: setting in InterfaceSettings(g, privateKey) ==> PlainSetting(setting)
  {
    AddressPlain();
    ListenPortPlain();
    PrivateKeyPlain();
    FwMarkPlain();
    SaveConfigPlain();
    KeyIsClean(privateKey);
    DigitsClean(g.listenPort, 10);
    DigitsClean(g.fwmark, 16);
    assert Clean("false") && Clean(PrintHex(g.fwmark));
  }

  lemma PeerSettingsPlain(net: Net, g: Gateway)
    requires Lawful(net) && Accepted(net, g)
    ensures forall setting :: setting in PeerSettings(g) ==> PlainSetting(setting)
  {
    PublicKeyPlain();
    AllowedIPsPlain();
    PersistentKeepalivePlain();
    KeyIsClean(g.clientKey);
    DigitsClean(g.keepalive, 10);
  }

  lemma InterfaceHalfScans(net: Net, g: Gateway, privateKey: string)
    requires Lawful(net) && Accepted(net, g) && IsKey(privateKey)
    ensures ScanLines(UNREAD, InterfaceHalf(g, privateKey)) ==
      Scan(InterfaceSection, 0, Lowered(InterfaceSettings(g, privateKey)), [], [])
    ensures forall line :: line in InterfaceHalf(g, privateKey) ==> '\n' !in line
  {
    var settings := InterfaceSettings(g, privateKey);
    InterfaceSettingsPlain(net, g, privateKey);
    HeaderScans();
    HeadersWhole();
    FoldConcat(ScanLine, UNREAD, [COMMENT, "[Interface]"], SettingLines(settings));
    SettingsScan(UNREAD.(section := InterfaceSection), settings);
    assert [] + Lowered(settings) == Lowered(settings);
  }

  lemma PeerHalfScans(net: Net, g: Gateway, s: Scan)
    requires Lawful(net) && Accepted(net, g) && s.peers == 0 && s.peer == []
    ensures ScanLines(s, PeerHalf(g)) == s.(section := PeerSection, peers := 1, peer := Lowered(PeerSettings(g)))
    ensures forall line :: line in PeerHalf(g) ==> '\n' !in line
  {
    var settings := PeerSettings(g);
    PeerSettingsPlain(net, g);
    PeerHeaderScans(s);
    HeadersWhole();
    FoldConcat(ScanLine, s, ["", "[Peer]"], SettingLines(settings));
    SettingsScan(s.(section := PeerSection, peers := 1), settings);
    assert [] + Lowered(settings) == Lowered(settings);
  }

  /** What the scanning loop collects from a rendered file. */
  lemma RenderedScans(net: Net, g: Gateway, privateKey: string)
    requires Lawful(net) && Accepted(net, g) && IsKey(privateKey)
    ensures ScanLines(UNREAD, RenderLines(g, privateKey)) ==
      Scan(PeerSection, 1, Lowered(InterfaceSettings(g, privateKey)), Lowered(PeerSettings(g)), [])
    ensures forall line :: line in RenderLines(g, privateKey) ==> '\n' !in line
  {
    InterfaceHalfScans(net, g, privateKey);
    var s := ScanLines(UNREAD, InterfaceHalf(g, privateKey));
    PeerHalfScans(net, g, s);
    FoldConcat(ScanLine, UNREAD, InterfaceHalf(g, privateKey), PeerHalf(g));
  }

  /** An option that occurs once is found. */
  lemma {:induction false} OccursOnce(entries: seq<(string, string)>, i: nat, from: nat)
    requires i < |entries| && from <= |entries|
    requires forall j :: 0 <= j < |entries| && j != i ==> entries[j].0 != entries[i].0
    ensures ValuesOf(entries[from..], entries[i].0) == if from <= i then [entries[i].1] else []
    decreases |entries| - from
  {
    if from < |entries| {
      OccursOnce(entries, i, from + 1);
      assert entries[from..][1..] == entries[from + 1..];
    }
  }

  lemma FoundOnce(entries: seq<(string, string)>, i: nat)
    requires i < |entries|
    requires forall j :: 0 <= j < |entries| && j != i ==> entries[j].0 != entries[i].0
    ensures One(entries, entries[i].0) == Ok(Some(entries[i].1)) && Need(entries, entries[i].0) == Ok(entries[i].1)
  {
    OccursOnce(entries, i, 0);
    assert entries[0..] == entries;
  }

  lemma InterfaceNames(g: Gateway, privateKey: string)
    ensures var entries := Lowered(InterfaceSettings(g, privateKey));
      entries[0].0 == "address" && entries[1].0 == "listenport" && entries[2].0 == "privatekey" &&
      entries[3].0 == "fwmark" && entries[4].0 == "saveconfig"
  {
    AddressPlain();
    ListenPortPlain();
    PrivateKeyPlain();
    FwMarkPlain();
    SaveConfigPlain();
  }

  lemma InterfaceOptions(g: Gateway, privateKey: string)
    ensures var entries := Lowered(InterfaceSettings(g, privateKey));
      Need(entries, "address") == Ok(g.server) && Need(entries, "listenport") == Ok(Numerals.Print(g.listenPort, 10)) &&
      One(entries, "privatekey") == Ok(Some(privateKey)) && Need(entries, "fwmark") == Ok(PrintHex(g.fwmark))
  {
    var entries := Lowered(InterfaceSettings(g, privateKey));
    InterfaceNames(g, privateKey);
    FoundOnce(entries, 0);
    FoundOnce(entries, 1);
    FoundOnce(entries, 2);
    FoundOnce(entries, 3);
  }

  lemma PeerOptions(g: Gateway)
    ensures var entries := Lowered(PeerSettings(g));
      Need(entries, "publickey") == Ok(g.clientKey) && Need(entries, "allowedips") == Ok(g.client) &&
      One(entries, "persistentkeepalive") == Ok(Some(Numerals.Print(g.keepalive, 10)))
  {
    var entries := Lowered(PeerSettings(g));
    PublicKeyPlain();
    AllowedIPsPlain();
    PersistentKeepalivePlain();
    assert entries[0].0 == "publickey" && entries[1].0 == "allowedips" && entries[2].0 == "persistentkeepalive";
    FoundOnce(entries, 0);
    FoundOnce(entries, 1);
    FoundOnce(entries, 2);
  }

  lemma FirstAddressOfClean(text: string)
    requires Clean(text)
    ensures FirstAddress(text) == text
  {
    assert text[0] in text && text[|text| - 1] in text;
  }

  lemma KeyChosen(privateKey: string, fileKey: Option<string>)
    requires IsKey(privateKey) && (fileKey == None || fileKey == Some(privateKey + "\n"))
    ensures ChooseKey(Some(privateKey), fileKey) == Ok(privateKey)
  {
    KeyIsClean(privateKey);
    assert privateKey[0] in privateKey && privateKey[43] in privateKey;
    assert (privateKey + "\n")[..44] == privateKey;
  }

  lemma NumbersRead(net: Net, g: Gateway, privateKey: string)
    requires Accepted(net, g)
    ensures ReadNumbers(Scan(PeerSection, 1, Lowered(InterfaceSettings(g, privateKey)), Lowered(PeerSettings(g)), []))
      == Ok((g.listenPort, g.fwmark, g.keepalive))
  {
    InterfaceOptions(g, privateKey);
    PeerOptions(g);
    Numerals.PrintParse(g.listenPort, 10);
    Numerals.PrintParse(g.keepalive, 10);
    HexRoundTrip(g.fwmark);
    assert Numerals.Print(g.keepalive, 10) != "";
  }

  /** Reading what the scan of a rendered file collected. */
  lemma InterpretScanned(net: Net, g: Gateway, privateKey: string, fileKey: Option<string>)
    requires Lawful(net) && Accepted(net, g) && IsKey(privateKey)
    requires fileKey == None || fileKey == Some(privateKey + "\n")
    ensures Interpret(net, g.interface, fileKey,
      Scan(PeerSection, 1, Lowered(InterfaceSettings(g, privateKey)), Lowered(PeerSettings(g)), []))
      == Ok(Existing(g, privateKey, []))
  {
    InterfaceOptions(g, privateKey);
    PeerOptions(g);
    KeyChosen(privateKey, fileKey);
    FirstAddressOfClean(g.server);
    FirstAddressOfClean(g.client);
    NumbersRead(net, g, privateKey);
  }

  /** parse_wireguard inverts render_wireguard: every accepted configuration and key come back, from
      an inline key, with or without the same key in the managed file. */
  lemma ParseInvertsRender(net: Net, g: Gateway, privateKey: string, fileKey: Option<string>)
    requires Lawful(net) && Accepted(net, g) && IsKey(privateKey)
    requires fileKey == None || fileKey == Some(privateKey + "\n")
    ensures Parse(net, g.interface, fileKey, Render(g, privateKey)) == Ok(Existing(g, privateKey, []))
  {
    RenderedScans(net, g, privateKey);
    SplitJoin(RenderLines(g, privateKey));
    InterpretScanned(net, g, privateKey, fileKey);
  }

  lemma InterpretedIsAccepted(net: Net, interface: string, fileKey: Option<string>, s: Scan)
    requires Lawful(net) && IsInterfaceName(interface)
    ensures var read := Interpret(net, interface, fileKey, s);
      read.Ok? ==>
        Accepted(net, read.value.gateway) && IsKey(read.value.privateKey) && read.value.gateway.interface == interface
  {
  }

  /** Whatever parse_wireguard returns satisfies everything read_setup asks of a gateway, except that
      the client may have the server's own address. */
  lemma ParsedIsAccepted(net: Net, interface: string, fileKey: Option<string>, text: string)
    requires Lawful(net) && IsInterfaceName(interface)
    ensures var parsed := Parse(net, interface, fileKey, text);
      parsed.Ok? ==>
        Accepted(net, parsed.value.gateway) && IsKey(parsed.value.privateKey) &&
        parsed.value.gateway.interface == interface
  {
    InterpretedIsAccepted(net, interface, fileKey, ScanLines(UNREAD, SplitLines(text)));
  }

  // ---------------------------------------------------------------- Any file

  ghost predicate Blank(text: string) { forall c :: c in text ==> Space(c) }

  predicate Trimmed(text: string) { text == "" || (!Space(text[0]) && !Space(text[|text| - 1])) }

  /** `core` stands in the text with nothing but blanks around it. */
  ghost predicate Around(text: string, core: string) {
    Trimmed(core) && exists before, after :: Blank(before) && Blank(after) && text == before + core + after
  }

  lemma {:induction false} StartSkips(before: string, rest: string)
    requires Blank(before)
    ensures StripStart(before + rest) == StripStart(rest)
  {
    if before == [] {
      assert before + rest == rest;
    } else {
      assert before[0] in before && (before + rest)[1..] == before[1..] + rest;
      StartSkips(before[1..], rest);
    }
  }

  lemma {:induction false} EndSkips(rest: string, after: string)
    requires Blank(after)
    ensures StripEnd(rest + after) == StripEnd(rest)
  {
    if after == [] {
      assert rest + after == rest;
    } else {
      var last := |after| - 1;
      assert after[last] in after && (rest + after)[..|rest + after| - 1] == rest + after[..last];
      EndSkips(rest, after[..last]);
    }
  }

  lemma {:induction false} StartCut(text: string) returns (before: string)
    ensures Blank(before) && text == before + StripStart(text)
    ensures StripStart(text) == "" || !Space(StripStart(text)[0])
  {
    before := "";
    if text != [] && Space(text[0]) {
      var more := StartCut(text[1..]);
      before := [text[0]] + more;
    }
  }

  lemma {:induction false} EndCut(text: string) returns (after: string)
    ensures Blank(after) && text == StripEnd(text) + after
    ensures StripEnd(text) == "" || !Space(StripEnd(text)[|StripEnd(text)| - 1])
  {
    after := "";
    if text != [] && Space(text[|text| - 1]) {
      var more := EndCut(text[..|text| - 1]);
      after := more + [text[|text| - 1]];
    }
  }

  /** Stripping leaves the one trimmed text that stands between blanks. */
  lemma StripExactly(text: string, core: string)
    ensures Strip(text) == core <==> Around(text, core)
  {
    var before := StartCut(text);
    var after := EndCut(StripStart(text));
    assert text == before + Strip(text) + after && Around(text, Strip(text));
    if Around(text, core) {
      var left, right :| Blank(left) && Blank(right) && text == left + core + right;
      assert text == left + (core + right);
      StartSkips(left, core + right);
      EndSkips(core, right);
      if core == "" {
        StartSkips(right, "");
        assert core + right == right && right + "" == right;
      }
    }
  }

  /** What one line of a file says. */
  datatype Item = Idle | Head(section: string) | Entry(name: string, value: string)

  predicate Remark(core: string) { core == "" || core[0] == '#' || core[0] == ';' }

  predicate Bracketed(core: string) { |core| >= 2 && core[0] == '[' && core[|core| - 1] == ']' }

  ghost predicate Means(core: string, item: Item) {
    match item
    case Idle => Remark(core) || (!Bracketed(core) && '=' !in core)
    case Head(section) => core == "[" + section + "]"
    case Entry(name, value) =>
      && !Remark(core) && !Bracketed(core)
      && exists left, right ::
           Around(left, name) && Around(right, value) && '=' !in left && core == left + ['='] + right
  }

  ghost predicate Reads(raw: string, item: Item) { exists core :: Around(raw, core) && Means(core, item) }

  /** Nothing a file may hold is left out: every line reads as something. */
  lemma EveryLineReads(raw: string) returns (item: Item)
    ensures Reads(raw, item)
  {
    var core := Strip(raw);
    StripExactly(raw, core);
    if Remark(core) {
      item := Idle;
    } else if Bracketed(core) {
      item := Head(core[1..|core| - 1]);
      assert core == "[" + core[1..|core| - 1] + "]";
    } else if '=' in core {
      var parts := SplitFirst(core, '=');
      item := Entry(Strip(parts.0), Strip(parts.1));
      StripExactly(parts.0, item.name);
      StripExactly(parts.1, item.value);
    } else {
      item := Idle;
    }
    assert Means(core, item);
  }

  /** The two sides of a line's first equals sign. */
  lemma EntryScans(s: Scan, raw: string, left: string, right: string, name: string, value: string)
    requires !Remark(Strip(raw)) && !Bracketed(Strip(raw)) && s.section != NoSection
    requires Strip(raw) == left + ['='] + right && '=' !in left && Strip(left) == name && Strip(right) == value
    ensures ScanLine(s, raw) ==
      Collected(s, [(Lower(name), value)]).(hooks := if IsHook(name) then s.hooks + [name] else s.hooks)
  {
    SplitFirstAt(left, '=', right);
  }

  /** The loop's body follows what the line says. */
  lemma LineScans(s: Scan, raw: string, item: Item)
    requires Reads(raw, item)
    ensures ScanLine(s, raw) ==
      match item
      case Idle => s
      case Head(section) =>
        s.(section := SectionNamed(section), peers := if section == "Peer" then s.peers + 1 else s.peers)
      case Entry(name, value) =>
        if s.section == NoSection then s
        else Collected(s, [(Lower(name), value)]).(hooks := if IsHook(name) then s.hooks + [name] else s.hooks)
  {
    var core :| Around(raw, core) && Means(core, item);
    StripExactly(raw, core);
    match item
    case Idle =>
    case Head(section) => assert core[1..|core| - 1] == section;
    case Entry(name, value) =>
      var left, right :|
        Around(left, name) && Around(right, value) && '=' !in left && core == left + ['='] + right;
      StripExactly(left, name);
      StripExactly(right, value);
      if s.section != NoSection { EntryScans(s, raw, left, right, name, value); }
  }

  /** The name in the last section header among the first n lines. */
  function LastHead(items: seq<Item>, n: nat): Option<string>
    requires n <= |items|
  {
    if n == 0 then None
    else if items[n - 1].Head? then Some(items[n - 1].section)
    else LastHead(items, n - 1)
  }

  /** The options that the first n lines give in a section, in order, names in lower case. */
  function Noted(items: seq<Item>, section: string, n: nat): Settings
    requires n <= |items|
  {
    if n == 0 then []
    else if items[n - 1].Entry? && LastHead(items, n - 1) == Some(section) then
      Noted(items, section, n - 1) + [(Lower(items[n - 1].name), items[n - 1].value)]
    else Noted(items, section, n - 1)
  }

  /** The lifecycle commands among the first n lines, in order. */
  function Hooks(items: seq<Item>, n: nat): seq<string>
    requires n <= |items|
  {
    if n == 0 then []
    else if
      && items[n - 1].Entry? && IsHook(items[n - 1].name)
      && LastHead(items, n - 1) in {Some("Interface"), Some("Peer")}
    then Hooks(items, n - 1) + [items[n - 1].name]
    else Hooks(items, n - 1)
  }

  /** The [Peer] headers among the first n lines. */
  function Peers(items: seq<Item>, n: nat): nat
    requires n <= |items|
  {
    if n == 0 then 0 else Peers(items, n - 1) + if items[n - 1] == Head("Peer") then 1 else 0
  }

  /** The section a header opens, as the loop remembers it. */
  function SectionOf(head: Option<string>): Section {
    if head.Some? then SectionNamed(head.value) else NoSection
  }

  /** The loop notes exactly the options under the two sections, counts the peers and lists every hook. */
  ghost predicate Followed(s: Scan, items: seq<Item>, n: nat)
    requires n <= |items|
  {
    && s.interface == Noted(items, "Interface", n) && s.peer == Noted(items, "Peer", n) && s.hooks == Hooks(items, n)
    && s.section == SectionOf(LastHead(items, n)) && s.peers == Peers(items, n)
  }

  lemma FollowsLine(s: Scan, raw: string, items: seq<Item>, n: nat)
    requires n < |items| && Reads(raw, items[n]) && Followed(s, items, n)
    ensures Followed(ScanLine(s, raw), items, n + 1)
  {
    LineScans(s, raw, items[n]);
  }

  lemma {:induction false} FileScans(lines: seq<string>, items: seq<Item>, n: nat)
    requires Itemized(lines, items) && n <= |lines|
    ensures Followed(ScanLines(UNREAD, lines[..n]), items, n)
  {
    if n > 0 {
      FileScans(lines, items, n - 1);
      FollowsLine(ScanLines(UNREAD, lines[..n - 1]), lines[n - 1], items, n - 1);
      assert lines[..n][..n - 1] == lines[..n - 1];
    }
  }

  /** The option is given once, with this value. */
  ghost predicate Sole(entries: Settings, option: string, value: string) {
    exists i :: 0 <= i < |entries| && entries[i] == (option, value) &&
      forall j :: 0 <= j < |entries| && j != i ==> entries[j].0 != option
  }

  predicate Absent(entries: Settings, option: string) {
    forall i :: 0 <= i < |entries| ==> entries[i].0 != option
  }

  predicate Repeated(entries: Settings, option: string) {
    exists i, j :: 0 <= i < j < |entries| && entries[i].0 == entries[j].0 == option
  }

  lemma {:induction false} ValuesExactly(entries: Settings, option: string)
    ensures ValuesOf(entries, option) == [] <==> Absent(entries, option)
    ensures |ValuesOf(entries, option)| == 1 ==> Sole(entries, option, ValuesOf(entries, option)[0])
    ensures |ValuesOf(entries, option)| > 1 ==> Repeated(entries, option)
  {
    if entries != [] {
      var rest := entries[1..];
      ValuesExactly(rest, option);
      if entries[0].0 == option {
        if |ValuesOf(rest, option)| > 0 {
          var j :| 0 <= j < |rest| && rest[j].0 == option;
          assert entries[0].0 == entries[j + 1].0 == option;
        } else {
          assert entries[0] == (option, entries[0].1);
          forall j | 0 <= j < |entries| && j != 0 ensures entries[j].0 != option { assert entries[j] == rest[j - 1]; }
        }
      } else if |ValuesOf(rest, option)| > 1 {
        var i, j :| 0 <= i < j < |rest| && rest[i].0 == rest[j].0 == option;
        assert entries[i + 1].0 == entries[j + 1].0 == option;
      } else if |ValuesOf(rest, option)| == 1 {
        var value := ValuesOf(rest, option)[0];
        var i :| 0 <= i < |rest| && rest[i] == (option, value) &&
          forall j :: 0 <= j < |rest| && j != i ==> rest[j].0 != option;
        assert entries[i + 1] == (option, value);
        forall j | 0 <= j < |entries| && j != i + 1 ensures entries[j].0 != option {
          if j > 0 { assert entries[j] == rest[j - 1]; }
        }
      } else {
        forall j | 0 <= j < |entries| ensures entries[j].0 != option {
          if j > 0 { assert entries[j] == rest[j - 1]; }
        }
      }
    }
  }

  /** one(): an option that is not given, given once, or refused as given twice. */
  lemma OneExactly(entries: Settings, option: string)
    ensures One(entries, option) == Ok(None) <==> Absent(entries, option)
    ensures forall value :: One(entries, option) == Ok(Some(value)) <==> Sole(entries, option, value)
    ensures One(entries, option) == Err(Duplicate(option)) <==> Repeated(entries, option)
    ensures One(entries, option).Err? ==> One(entries, option).error == Duplicate(option)
  {
    ValuesExactly(entries, option);
  }

  /** The first of the listed addresses: what stands before the first comma. */
  ghost predicate FirstOf(value: string, first: string) {
    exists head :: Around(head, first) && ',' !in head && (value == head || exists rest :: value == head + [','] + rest)
  }

  lemma FirstExactly(value: string, first: string)
    ensures FirstAddress(value) == first <==> FirstOf(value, first)
  {
    var parts := SplitFirst(value, ',');
    StripExactly(parts.0, first);
    if FirstOf(value, first) {
      var head :|
        Around(head, first) && ',' !in head && (value == head || exists rest :: value == head + [','] + rest);
      if value != head {
        var rest :| value == head + [','] + rest;
        SplitFirstAt(head, ',', rest);
      }
    } else if ',' in value {
      assert value == parts.0 + [','] + parts.1;
    }
  }

  /** The private key: inline, in the managed file, or the same in both. Empty texts are no key. */
  ghost predicate KeyIs(inside: Settings, fileKey: Option<string>, key: string) {
    && key != ""
    && (Absent(inside, "privatekey") || Sole(inside, "privatekey", "") || Sole(inside, "privatekey", key))
    && (fileKey.None? || Around(fileKey.value, "") || Around(fileKey.value, key))
    && (Sole(inside, "privatekey", key) || (fileKey.Some? && Around(fileKey.value, key)))
  }

  /** Sole values are unique. */
  lemma SoleOnce(entries: Settings, option: string, value: string, other: string)
    requires Sole(entries, option, value)
    ensures !Absent(entries, option) && !Repeated(entries, option)
    ensures Sole(entries, option, other) ==> value == other
  {
  }

  lemma KeyExactly(inside: Settings, fileKey: Option<string>, key: string)
    requires One(inside, "privatekey").Ok?
    ensures ChooseKey(One(inside, "privatekey").value, fileKey) == Ok(key) <==> KeyIs(inside, fileKey, key)
  {
    OneExactly(inside, "privatekey");
    if fileKey.Some? {
      StripExactly(fileKey.value, "");
      StripExactly(fileKey.value, key);
    }
  }

  /** A missing or empty keepalive is 25 seconds. */
  ghost predicate KeepaliveIs(peer: Settings, seconds: nat) {
    if Absent(peer, "persistentkeepalive") || Sole(peer, "persistentkeepalive", "") then seconds == 25
    else exists value :: Sole(peer, "persistentkeepalive", value) && ParseInt(value) == Some(seconds)
  }

  ghost predicate NumbersAre(inside: Settings, peer: Settings, port: nat, mark: nat, seconds: nat) {
    && (exists value :: Sole(inside, "listenport", value) && ParseInt(value) == Some(port))
    && (exists value :: Sole(inside, "fwmark", value) && ParseAnyBase(value) == Some(mark))
    && KeepaliveIs(peer, seconds)
    && 1 <= port <= 65535 && mark <= 0xFFFF_FFFF && seconds <= 65535
  }

  lemma NumbersExactly(s: Scan, port: nat, mark: nat, seconds: nat)
    ensures ReadNumbers(s) == Ok((port, mark, seconds)) <==> NumbersAre(s.interface, s.peer, port, mark, seconds)
  {
    OneExactly(s.interface, "listenport");
    OneExactly(s.interface, "fwmark");
    OneExactly(s.peer, "persistentkeepalive");
  }

  ghost predicate AddressIs(net: Net, entries: Settings, option: string, address: string) {
    exists value, first ::
      Sole(entries, option, value) && FirstOf(value, first) && net.canonical(first) == Some(address)
  }

  lemma AddressExactly(net: Net, entries: Settings, option: string, address: string)
    ensures AddressIs(net, entries, option, address) <==>
      Need(entries, option).Ok? && net.canonical(FirstAddress(Need(entries, option).value)) == Some(address)
  {
    OneExactly(entries, option);
    if Need(entries, option).Ok? {
      var value := Need(entries, option).value;
      FirstExactly(value, FirstAddress(value));
      assert Sole(entries, option, value);
      if AddressIs(net, entries, option, address) {
        var other, first :|
          Sole(entries, option, other) && FirstOf(other, first) && net.canonical(first) == Some(address);
        SoleOnce(entries, option, value, other);
        FirstExactly(value, first);
      }
    }
  }

  /** What the options of a file say about a gateway and its key. */
  ghost predicate OptionsSay(net: Net, inside: Settings, peer: Settings, fileKey: Option<string>, g: Gateway,
      key: string) {
    && KeyIs(inside, fileKey, key) && IsKey(key)
    && AddressIs(net, inside, "address", g.server) && AddressIs(net, peer, "allowedips", g.client)
    && net.within(g.client, g.server)
    && NumbersAre(inside, peer, g.listenPort, g.fwmark, g.keepalive)
    && Sole(peer, "publickey", g.clientKey) && IsKey(g.clientKey)
  }

  lemma SaidIsInterpreted(net: Net, interface: string, fileKey: Option<string>, s: Scan, found: Existing)
    requires s.peers == 1 && found.gateway.interface == interface && found.hooks == s.hooks
    requires OptionsSay(net, s.interface, s.peer, fileKey, found.gateway, found.privateKey)
    ensures Interpret(net, interface, fileKey, s) == Ok(found)
  {
    var g := found.gateway;
    OneExactly(s.interface, "privatekey");
    KeyExactly(s.interface, fileKey, found.privateKey);
    AddressExactly(net, s.interface, "address", g.server);
    AddressExactly(net, s.peer, "allowedips", g.client);
    NumbersExactly(s, g.listenPort, g.fwmark, g.keepalive);
    OneExactly(s.peer, "publickey");
  }

  lemma InterpretedIsSaid(net: Net, interface: string, fileKey: Option<string>, s: Scan, found: Existing)
    requires Interpret(net, interface, fileKey, s) == Ok(found)
    ensures s.peers == 1 && found.gateway.interface == interface && found.hooks == s.hooks
    ensures OptionsSay(net, s.interface, s.peer, fileKey, found.gateway, found.privateKey)
  {
    var g := found.gateway;
    KeyExactly(s.interface, fileKey, found.privateKey);
    AddressExactly(net, s.interface, "address", g.server);
    AddressExactly(net, s.peer, "allowedips", g.client);
    NumbersExactly(s, g.listenPort, g.fwmark, g.keepalive);
    OneExactly(s.peer, "publickey");
  }

  lemma InterpretExactly(net: Net, interface: string, fileKey: Option<string>, s: Scan, found: Existing)
    ensures Interpret(net, interface, fileKey, s) == Ok(found) <==>
      && s.peers == 1 && found.gateway.interface == interface && found.hooks == s.hooks
      && OptionsSay(net, s.interface, s.peer, fileKey, found.gateway, found.privateKey)
  {
    if Interpret(net, interface, fileKey, s) == Ok(found) {
      InterpretedIsSaid(net, interface, fileKey, s, found);
    } else if
      && s.peers == 1 && found.gateway.interface == interface && found.hooks == s.hooks
      && OptionsSay(net, s.interface, s.peer, fileKey, found.gateway, found.privateKey)
    {
      SaidIsInterpreted(net, interface, fileKey, s, found);
    }
  }

  lemma PeerCountExactly(net: Net, interface: string, fileKey: Option<string>, s: Scan)
    ensures Interpret(net, interface, fileKey, s) == Err(PeerCount) <==> s.peers != 1
  {
  }

  /** Each line read as an item. */
  ghost predicate Itemized(lines: seq<string>, items: seq<Item>) {
    |lines| == |items| && forall i :: 0 <= i < |lines| ==> Reads(lines[i], items[i])
  }

  /** What a file says. */
  ghost predicate FileSays(net: Net, interface: string, fileKey: Option<string>, items: seq<Item>, found: Existing) {
    var inside, peer := Noted(items, "Interface", |items|), Noted(items, "Peer", |items|);
    && Peers(items, |items|) == 1 && found.gateway.interface == interface && found.hooks == Hooks(items, |items|)
    && OptionsSay(net, inside, peer, fileKey, found.gateway, found.privateKey)
  }

  /** parse_wireguard of any text: it returns exactly the gateway, key and hooks that the file says. */
  lemma ParseExactly(net: Net, interface: string, fileKey: Option<string>, text: string, items: seq<Item>,
      found: Existing)
    requires Itemized(SplitLines(text), items)
    ensures Parse(net, interface, fileKey, text) == Ok(found) <==> FileSays(net, interface, fileKey, items, found)
    ensures Parse(net, interface, fileKey, text) == Err(PeerCount) <==> Peers(items, |items|) != 1
  {
    var lines := SplitLines(text);
    FileScans(lines, items, |lines|);
    assert lines[..|lines|] == lines;
    InterpretExactly(net, interface, fileKey, ScanLines(UNREAD, lines), found);
    PeerCountExactly(net, interface, fileKey, ScanLines(UNREAD, lines));
  }

  /** The first of several addresses, whatever follows the comma. */
  lemma FirstListed(first: string, rest: string)
    requires Clean(first)
    ensures FirstAddress(first + [','] + rest) == first
  {
    SplitFirstAt(first, ',', rest);
    FirstAddressOfClean(first);
  }

  /** Line i gives a hook in one of the two sections. */
  predicate HookLine(items: seq<Item>, i: nat)
    requires i < |items|
  {
    items[i].Entry? && IsHook(items[i].name) && LastHead(items, i) in {Some("Interface"), Some("Peer")}
  }

  predicate AllListed(items: seq<Item>, hooks: seq<string>) {
    forall i :: 0 <= i < |items| && HookLine(items, i) ==> items[i].name in hooks
  }

  /** Every hook line is listed. */
  lemma {:induction false} HookListed(items: seq<Item>, n: nat, i: nat)
    requires i < n <= |items| && HookLine(items, i)
    ensures items[i].name in Hooks(items, n)
  {
    if i < n - 1 { HookListed(items, n - 1, i); }
  }

  /** The four lifecycle options are hooks. */
  lemma HookNames()
    ensures IsHook("PostUp") && IsHook("PostDown") && IsHook("PreUp") && IsHook("PreDown")
  {
    assert Lower("PostUp") == "postup" && Lower("PostDown") == "postdown";
    assert Lower("PreUp") == "preup" && Lower("PreDown") == "predown";
  }

  /** What comes out of a file that lists several addresses, leaves out the keepalive or has hooks. */
  lemma HandWritten(net: Net, interface: string, fileKey: Option<string>, text: string, items: seq<Item>,
      first: string, rest: string)
    requires Itemized(SplitLines(text), items) && Clean(first)
    requires Parse(net, interface, fileKey, text).Ok?
    ensures var n, found := |items|, Parse(net, interface, fileKey, text).value;
      var inside, peer, g := Noted(items, "Interface", n), Noted(items, "Peer", n), found.gateway;
      && (Sole(inside, "address", first + [','] + rest) ==> net.canonical(first) == Some(g.server))
      && (Sole(peer, "allowedips", first + [','] + rest) ==> net.canonical(first) == Some(g.client))
      && (Absent(peer, "persistentkeepalive") ==> g.keepalive == 25)
      && AllListed(items, found.hooks)
  {
    var n, found := |items|, Parse(net, interface, fileKey, text).value;
    var inside, peer, g := Noted(items, "Interface", n), Noted(items, "Peer", n), found.gateway;
    ParseExactly(net, interface, fileKey, text, items, found);
    FirstListed(first, rest);
    OneExactly(inside, "address");
    OneExactly(peer, "allowedips");
    AddressExactly(net, inside, "address", g.server);
    AddressExactly(net, peer, "allowedips", g.client);
    forall i | 0 <= i < n && HookLine(items, i) ensures items[i].name in found.hooks {
      HookListed(items, n, i);
    }
  }

  /** A mark written in decimal reads as that number. */
  lemma DecimalRead(n: nat)
    ensures ParseAnyBase(Numerals.Print(n, 10)) == Some(n)
  {
    var text := Numerals.Print(n, 10);
    Numerals.PrintParse(n, 10);
    Numerals.NoLeadingZero(n, 10);
    if n == 0 { Numerals.PrintStep(0, 10); }
  }

  /** A generated file keeps wg-quick from writing back, and has no hooks. */
  lemma RenderedIsInert(net: Net, g: Gateway, privateKey: string)
    requires Lawful(net) && Accepted(net, g) && IsKey(privateKey)
    ensures var s := ScanLines(UNREAD, SplitLines(Render(g, privateKey)));
      Sole(s.interface, "saveconfig", "false") && s.hooks == []
  {
    RenderedScans(net, g, privateKey);
    SplitJoin(RenderLines(g, privateKey));
    SavingIsOff(g, privateKey);
  }

  lemma SavingIsOff(g: Gateway, privateKey: string)
    ensures Sole(Lowered(InterfaceSettings(g, privateKey)), "saveconfig", "false")
  {
    var entries := Lowered(InterfaceSettings(g, privateKey));
    InterfaceNames(g, privateKey);
    assert entries[4] == ("saveconfig", "false");
  }

  // ---------------------------------------------------------------- The setup document

  datatype OptionName =
    | TunnelInterface | ServerAddress | ListenPort | ClientAddress | ClientPublicKeyFile
    | PersistentKeepalive | DnsUpstreams | ProtectedEgressInterface | TunnelFwmark
    | Other(name: string)

  /** Options of the [gateway] section after ConfigParser has read it. */
  type Options = map<OptionName, string>

  const REQUIRED_OPTIONS := {
    TunnelInterface, ServerAddress, ListenPort, ClientAddress, ClientPublicKeyFile,
    DnsUpstreams, ProtectedEgressInterface, TunnelFwmark}

  /** What the reader consults besides the document: key files, and whether an upstream list is acceptable. */
  datatype World = World(net: Net, files: string -> Option<string>, upstreams: string -> bool)

  datatype Configuration = Configuration(gateway: Gateway, egress: string)

  /** setup_document */
  function SetupDocument(g: Gateway, egress: string, dns: string, keyPath: string): Options {
    map[
      TunnelInterface := g.interface,
      ServerAddress := g.server,
      ListenPort := Numerals.Print(g.listenPort, 10),
      ClientAddress := g.client,
      ClientPublicKeyFile := keyPath,
      PersistentKeepalive := Numerals.Print(g.keepalive, 10),
      DnsUpstreams := dns,
      ProtectedEgressInterface := egress,
      TunnelFwmark := PrintHex(g.fwmark)]
  }

  datatype Fields = Fields(
    interface: string, egress: string, fwmark: string, keepalive: Option<string>, server: string,
    client: string, listenPort: string, keyPath: string, dns: string)

  /** The options of a document with no unknown and no missing option. */
  function Select(options: Options): Result<Fields, Error> {
    if exists option :: option in options.Keys && option.Other? then Err(UnknownOption) else
    if !(REQUIRED_OPTIONS <= options.Keys) then Err(Missing("option")) else
    Ok(Fields(
      options[TunnelInterface], options[ProtectedEgressInterface], options[TunnelFwmark],
      if PersistentKeepalive in options then Some(options[PersistentKeepalive]) else None,
      options[ServerAddress], options[ClientAddress], options[ListenPort], options[ClientPublicKeyFile],
      options[DnsUpstreams]))
  }

  /** The checks of read_setup on the selected options. */
  function Check(world: World, fields: Fields): Result<Configuration, Error> {
    var interface, egress := Strip(fields.interface), Strip(fields.egress);
    if !IsInterfaceName(interface) || !IsInterfaceName(egress) then Err(BadName) else
    if egress == interface then Err(SameInterface) else
    var fwmark := ParseAnyBase(Strip(fields.fwmark));
    if fwmark.None? then Err(BadNumber) else
    if fwmark.value > 0xFFFF_FFFF then Err(OutOfRange) else
    var keepalive := if fields.keepalive.Some? then ParseInt(fields.keepalive.value) else Some(25);
    if keepalive.None? then Err(BadNumber) else
    if keepalive.value > 65535 then Err(OutOfRange) else
    var server, client := world.net.canonical(Strip(fields.server)), world.net.canonical(Strip(fields.client));
    if server.None? || client.None? then Err(BadAddress) else
    if !world.net.within(client.value, server.value) then Err(OutsideNetwork) else
    if world.net.sameHost(client.value, server.value) then Err(SameHost) else
    var listenPort := ParseInt(fields.listenPort);
    if listenPort.None? then Err(BadNumber) else
    if !(1 <= listenPort.value <= 65535) then Err(OutOfRange) else
    var keyPath := Strip(fields.keyPath);
    if keyPath == "" || keyPath[0] != '/' || world.files(keyPath).None? then Err(NoKeyFile) else
    var clientKey := Strip(world.files(keyPath).value);
    if !IsKey(clientKey) then Err(BadKey) else
    if !world.upstreams(fields.dns) then Err(BadUpstreams) else
    var gateway :=
      Gateway(interface, server.value, listenPort.value, fwmark.value, client.value, clientKey, keepalive.value);
    Ok(Configuration(gateway, egress))
  }

  /** read_setup */
  function ReadSetup(world: World, options: Options): Result<Configuration, Error> {
    var fields := Select(options);
    if fields.Err? then Err(fields.error) else Check(world, fields.value)
  }

  /** What the options of a setup document say, in the reader's terms. */
  ghost predicate DocumentSays(world: World, options: Options, c: Configuration) {
    var net, g := world.net, c.gateway;
    && REQUIRED_OPTIONS <= options.Keys <= REQUIRED_OPTIONS + {PersistentKeepalive}
    && Around(options[TunnelInterface], g.interface) && Around(options[ProtectedEgressInterface], c.egress)
    && IsInterfaceName(c.egress) && c.egress != g.interface
    && (exists mark :: Around(options[TunnelFwmark], mark) && ParseAnyBase(mark) == Some(g.fwmark))
    && (if PersistentKeepalive in options then ParseInt(options[PersistentKeepalive]) == Some(g.keepalive)
        else g.keepalive == 25)
    && (exists server :: Around(options[ServerAddress], server) && net.canonical(server) == Some(g.server))
    && (exists client :: Around(options[ClientAddress], client) && net.canonical(client) == Some(g.client))
    && ParseInt(options[ListenPort]) == Some(g.listenPort)
    && (exists path, text ::
          && Around(options[ClientPublicKeyFile], path) && path != "" && path[0] == '/'
          && world.files(path) == Some(text) && Around(text, g.clientKey))
    && world.upstreams(options[DnsUpstreams])
  }

  lemma SelectExactly(options: Options)
    ensures Select(options).Ok? <==> REQUIRED_OPTIONS <= options.Keys <= REQUIRED_OPTIONS + {PersistentKeepalive}
  {
    if Select(options).Ok? {
      forall option | option in options.Keys ensures option in REQUIRED_OPTIONS + {PersistentKeepalive} {
        assert !option.Other?;
      }
    }
  }

  lemma StripClean(text: string)
    requires Clean(text)
    ensures Strip(text) == text && Strip(text + "\n") == text
  {
    assert text[0] in text && text[|text| - 1] in text;
    assert (text + "\n")[..|text|] == text;
  }

  lemma NameIsClean(name: string)
    requires IsInterfaceName(name)
    ensures Clean(name)
  {
  }

  lemma DocumentFields(g: Gateway, egress: string, dns: string, keyPath: string)
    ensures Select(SetupDocument(g, egress, dns, keyPath)) == Ok(Fields(
      g.interface, egress, PrintHex(g.fwmark), Some(Numerals.Print(g.keepalive, 10)), g.server,
      g.client, Numerals.Print(g.listenPort, 10), keyPath, dns))
  {
    assert REQUIRED_OPTIONS + {PersistentKeepalive} == SetupDocument(g, egress, dns, keyPath).Keys;
  }

  /** Each printed field reads back. */
  lemma FieldsRead(net: Net, g: Gateway, egress: string)
    requires Lawful(net) && Accepted(net, g) && IsInterfaceName(egress)
    ensures Strip(g.interface) == g.interface && Strip(egress) == egress
    ensures Strip(g.server) == g.server && Strip(g.client) == g.client && Strip(g.clientKey + "\n") == g.clientKey
    ensures ParseAnyBase(Strip(PrintHex(g.fwmark))) == Some(g.fwmark)
    ensures ParseInt(Numerals.Print(g.listenPort, 10)) == Some(g.listenPort)
    ensures ParseInt(Numerals.Print(g.keepalive, 10)) == Some(g.keepalive)
  {
    NameIsClean(g.interface);
    NameIsClean(egress);
    StripClean(g.interface);
    StripClean(egress);
    KeyIsClean(g.clientKey);
    StripClean(g.clientKey);
    StripClean(g.server);
    StripClean(g.client);
    HexRoundTrip(g.fwmark);
    DigitsClean(g.fwmark, 16);
    StripClean(PrintHex(g.fwmark));
    Numerals.PrintParse(g.listenPort, 10);
    Numerals.PrintParse(g.keepalive, 10);
  }

  lemma CheckAccepts(world: World, g: Gateway, fields: Fields)
    requires Strip(fields.interface) == g.interface && IsInterfaceName(g.interface)
    requires IsInterfaceName(Strip(fields.egress)) && Strip(fields.egress) != g.interface
    requires ParseAnyBase(Strip(fields.fwmark)) == Some(g.fwmark) && g.fwmark <= 0xFFFF_FFFF
    requires g.keepalive <= 65535
    requires if fields.keepalive.Some? then ParseInt(fields.keepalive.value) == Some(g.keepalive) else g.keepalive == 25
    requires world.net.canonical(Strip(fields.server)) == Some(g.server)
    requires world.net.canonical(Strip(fields.client)) == Some(g.client) && world.net.within(g.client, g.server)
    requires ParseInt(fields.listenPort) == Some(g.listenPort) && 1 <= g.listenPort <= 65535
    requires Strip(fields.keyPath) != "" && Strip(fields.keyPath)[0] == '/' && world.files(Strip(fields.keyPath)).Some?
    requires Strip(world.files(Strip(fields.keyPath)).value) == g.clientKey && IsKey(g.clientKey)
    requires world.upstreams(fields.dns)
    ensures Check(world, fields) ==
      if world.net.sameHost(g.client, g.server) then Err(SameHost) else Ok(Configuration(g, Strip(fields.egress)))
  {
  }

  /** What the reader took from the fields, once it has accepted them. */
  ghost predicate Taken(world: World, fields: Fields, c: Configuration) {
    var net, g, path := world.net, c.gateway, Strip(fields.keyPath);
    && Strip(fields.interface) == g.interface && Strip(fields.egress) == c.egress
    && IsInterfaceName(c.egress) && c.egress != g.interface
    && ParseAnyBase(Strip(fields.fwmark)) == Some(g.fwmark)
    && (if fields.keepalive.Some? then ParseInt(fields.keepalive.value) == Some(g.keepalive) else g.keepalive == 25)
    && net.canonical(Strip(fields.server)) == Some(g.server) && net.canonical(Strip(fields.client)) == Some(g.client)
    && ParseInt(fields.listenPort) == Some(g.listenPort)
    && path != "" && path[0] == '/'
    && world.files(path).Some? && Strip(world.files(path).value) == g.clientKey
    && world.upstreams(fields.dns)
  }

  lemma CheckedIsTaken(world: World, fields: Fields)
    requires Check(world, fields).Ok?
    ensures Taken(world, fields, Check(world, fields).value)
  {
  }

  lemma TakenIsSaid(world: World, options: Options, c: Configuration)
    requires Select(options).Ok? && Taken(world, Select(options).value, c)
    ensures DocumentSays(world, options, c)
  {
    SelectExactly(options);
    var path := Strip(options[ClientPublicKeyFile]);
    StripExactly(options[TunnelInterface], c.gateway.interface);
    StripExactly(options[ProtectedEgressInterface], c.egress);
    StripExactly(options[TunnelFwmark], Strip(options[TunnelFwmark]));
    StripExactly(options[ServerAddress], Strip(options[ServerAddress]));
    StripExactly(options[ClientAddress], Strip(options[ClientAddress]));
    StripExactly(options[ClientPublicKeyFile], path);
    StripExactly(world.files(path).value, c.gateway.clientKey);
  }

  lemma SaidIsChecked(world: World, options: Options, c: Configuration)
    requires DocumentSays(world, options, c) && Accepted(world.net, c.gateway) && Select(options).Ok?
    requires !world.net.sameHost(c.gateway.client, c.gateway.server)
    ensures Check(world, Select(options).value) == Ok(c)
  {
    var mark :| Around(options[TunnelFwmark], mark) && ParseAnyBase(mark) == Some(c.gateway.fwmark);
    var server :| Around(options[ServerAddress], server) && world.net.canonical(server) == Some(c.gateway.server);
    var client :| Around(options[ClientAddress], client) && world.net.canonical(client) == Some(c.gateway.client);
    var path, text :|
      && Around(options[ClientPublicKeyFile], path) && path != "" && path[0] == '/'
      && world.files(path) == Some(text) && Around(text, c.gateway.clientKey);
    StripExactly(options[TunnelInterface], c.gateway.interface);
    StripExactly(options[ProtectedEgressInterface], c.egress);
    StripExactly(options[TunnelFwmark], mark);
    StripExactly(options[ServerAddress], server);
    StripExactly(options[ClientAddress], client);
    StripExactly(options[ClientPublicKeyFile], path);
    StripExactly(text, c.gateway.clientKey);
    CheckAccepts(world, c.gateway, Select(options).value);
  }

  lemma CheckedIsAccepted(world: World, fields: Fields)
    requires Lawful(world.net) && Check(world, fields).Ok?
    ensures var g := Check(world, fields).value.gateway;
      Accepted(world.net, g) && !world.net.sameHost(g.client, g.server)
  {
  }

  /** read_setup of any document: it returns a configuration exactly when the document says it, the
      generator accepts the gateway, and its client is not the server. */
  lemma ReadExactly(world: World, options: Options, c: Configuration)
    requires Lawful(world.net)
    ensures ReadSetup(world, options) == Ok(c) <==>
      DocumentSays(world, options, c) && Accepted(world.net, c.gateway) &&
      !world.net.sameHost(c.gateway.client, c.gateway.server)
  {
    SelectExactly(options);
    if ReadSetup(world, options) == Ok(c) {
      CheckedIsTaken(world, Select(options).value);
      TakenIsSaid(world, options, c);
      CheckedIsAccepted(world, Select(options).value);
    } else if
      && DocumentSays(world, options, c) && Accepted(world.net, c.gateway)
      && !world.net.sameHost(c.gateway.client, c.gateway.server)
    {
      SaidIsChecked(world, options, c);
    }
  }

  /** read_setup of setup_document: the gateway comes back exactly when the client's address is not the server's. */
  lemma ReadInvertsDocument(world: World, g: Gateway, egress: string, dns: string, keyPath: string)
    requires Lawful(world.net) && Accepted(world.net, g)
    requires IsInterfaceName(egress) && egress != g.interface && world.upstreams(dns)
    requires Strip(keyPath) == keyPath != "" && keyPath[0] == '/' && world.files(keyPath) == Some(g.clientKey + "\n")
    ensures ReadSetup(world, SetupDocument(g, egress, dns, keyPath)) ==
      if world.net.sameHost(g.client, g.server) then Err(SameHost) else Ok(Configuration(g, egress))
  {
    var fields := Fields(
      g.interface, egress, PrintHex(g.fwmark), Some(Numerals.Print(g.keepalive, 10)), g.server,
      g.client, Numerals.Print(g.listenPort, 10), keyPath, dns);
    DocumentFields(g, egress, dns, keyPath);
    FieldsRead(world.net, g, egress);
    CheckAccepts(world, g, fields);
  }

  /** The world after the migration script has written the client's key file. */
  function Written(world: World, keyPath: string, clientKey: string): World {
    world.(files := (path: string) => if path == keyPath then Some(clientKey + "\n") else world.files(path))
  }

  /** From a gateway through the setup document and the generated configuration. */
  lemma GeneratedReadsBack(world: World, g: Gateway, privateKey: string, egress: string, dns: string, keyPath: string)
    requires Lawful(world.net) && Accepted(world.net, g) && IsKey(privateKey)
    requires IsInterfaceName(egress) && egress != g.interface && world.upstreams(dns)
    requires Strip(keyPath) == keyPath != "" && keyPath[0] == '/'
    ensures var read := ReadSetup(Written(world, keyPath, g.clientKey), SetupDocument(g, egress, dns, keyPath));
      (read.Ok? <==> !world.net.sameHost(g.client, g.server)) &&
      (read.Ok? ==>
        Parse(world.net, g.interface, Some(privateKey + "\n"), Render(read.value.gateway, privateKey)) ==
          Ok(Existing(g, privateKey, [])))
  {
    ReadInvertsDocument(Written(world, keyPath, g.clientKey), g, egress, dns, keyPath);
    ParseInvertsRender(world.net, g, privateKey, Some(privateKey + "\n"));
  }

  /** What the migration promises about a gateway that the parser found: the setup document that is
      generated for it is accepted exactly when client and server addresses differ, and the
      configuration generated from that reads back as the same gateway, without its hooks. */
  ghost predicate Kept(world: World, found: Existing, egress: string, dns: string, keyPath: string) {
    var g := found.gateway;
    var read := ReadSetup(Written(world, keyPath, g.clientKey), SetupDocument(g, egress, dns, keyPath));
    && (read.Ok? <==> !world.net.sameHost(g.client, g.server))
    && (read.Ok? ==>
        Parse(world.net, g.interface, Some(found.privateKey + "\n"), Render(read.value.gateway, found.privateKey)) ==
          Ok(found.(hooks := [])))
  }

  /** The whole migration, from any text that the parser accepts. */
  lemma MigrationKeepsGateway(world: World, interface: string, fileKey: Option<string>, text: string, egress: string,
      dns: string, keyPath: string)
    requires Lawful(world.net) && world.upstreams(dns)
    requires IsInterfaceName(interface) && IsInterfaceName(egress) && egress != interface
    requires Strip(keyPath) == keyPath != "" && keyPath[0] == '/'
    ensures var parsed := Parse(world.net, interface, fileKey, text);
      parsed.Ok? ==> parsed.value.gateway.interface == interface && Kept(world, parsed.value, egress, dns, keyPath)
  {
    var parsed := Parse(world.net, interface, fileKey, text);
    if parsed.Ok? {
      ParsedIsAccepted(world.net, interface, fileKey, text);
      GeneratedReadsBack(world, parsed.value.gateway, parsed.value.privateKey, egress, dns, keyPath);
    }
  }
}
