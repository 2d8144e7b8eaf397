/**
 The text of resolver files and who owns it (`resolver_content`, `reverse_resolver_content`,
 `ensure_owned`, `is_managed_reverse`, and the names in the resolver directory).
 */
module ResolverFiles {
  import opened Text
  import opened Wrappers

  const MANAGED_MARKER := "# managed-by: vzctl"
  const REVERSE_SCOPE_MARKER := "# scope: ipv4-reverse"
  const LEGACY_REVERSE := "in-addr.arpa"
  const PROJECT_SUFFIX := ".vz.test"
  const PROJECT_LINE := "# project: "
  const OWNER_LINE := "# owner: "

  datatype Scope = Scope(project: string, owner: string)

  predicate SingleLine(s: string) { '\n' !in s && '\r' !in s }

  /** Resolved scopes: the project is a DNS label and the owner a hash or a project name. */
  predicate ValidScope(s: Scope) { SingleLine(s.project) && SingleLine(s.owner) }

  // ----- lines -----

  function StripCr(line: string): string {
    if line != "" && line[|line| - 1] == '\r' then line[..|line| - 1] else line
  }

  function StripCrs(lines: seq<string>): (r: seq<string>)
    ensures |r| == |lines| && forall i :: 0 <= i < |r| ==> r[i] == StripCr(lines[i])
  {
    if lines == [] then [] else [StripCr(lines[0])] + StripCrs(lines[1..])
  }

  /** `str::lines`: a final line need not be terminated, and only terminated lines lose a CR. */
  function Lines(text: string): seq<string> {
    var pieces := Split(text, '\n');
    var last := |pieces| - 1;
    StripCrs(pieces[..last]) + if pieces[last] == "" then [] else [pieces[last]]
  }

  function Terminated(lines: seq<string>): string {
    if lines == [] then "" else lines[0] + "\n" + Terminated(lines[1..])
  }

  lemma {:induction false} SplitTerminated(lines: seq<string>)
    requires forall i :: 0 <= i < |lines| ==> '\n' !in lines[i]
    ensures Split(Terminated(lines), '\n') == lines + [""]
  {
    if lines != [] {
      SplitTerminated(lines[1..]);
      SplitPrefix(lines[0], Terminated(lines[1..]), '\n');
    }
  }

  lemma LinesOfTerminated(lines: seq<string>)
    requires forall i :: 0 <= i < |lines| ==> SingleLine(lines[i])
    ensures Lines(Terminated(lines)) == lines
  {
    SplitTerminated(lines);
    assert (lines + [""])[..|lines|] == lines;
    forall i | 0 <= i < |lines| ensures StripCr(lines[i]) == lines[i] {
      NothingToStrip(lines[i]);
    }
    StripAll(lines);
    assert lines + [] == lines;
  }

  lemma NothingToStrip(line: string)
    requires SingleLine(line)
    ensures StripCr(line) == line
  {
    if line != "" {
      assert line[|line| - 1] in line;
    }
  }

  lemma {:induction false} StripAll(lines: seq<string>)
    requires forall i :: 0 <= i < |lines| ==> StripCr(lines[i]) == lines[i]
    ensures StripCrs(lines) == lines
  {
    if lines != [] {
      StripAll(lines[1..]);
    }
  }

  function WithCrs(lines: seq<string>): seq<string> {
    seq(|lines|, i requires 0 <= i < |lines| => lines[i] + "\r")
  }

  /** Lines that end in CR LF read like lines that end in LF. */
  lemma LinesOfCrLf(lines: seq<string>)
    requires forall i :: 0 <= i < |lines| ==> SingleLine(lines[i])
    ensures Lines(Terminated(WithCrs(lines))) == lines
  {
    SplitTerminated(WithCrs(lines));
    assert (WithCrs(lines) + [""])[..|lines|] == WithCrs(lines);
    assert forall i :: 0 <= i < |lines| ==> StripCr(lines[i] + "\r") == lines[i];
    assert StripCrs(WithCrs(lines)) == lines;
    assert lines + [] == lines;
  }

  // ----- contents -----

  /** The lines of the two file formats; every line is terminated. */
  function ResolverTextLines(scope: Scope, port: nat): seq<string> {
    [MANAGED_MARKER, PROJECT_LINE + scope.project, OWNER_LINE + scope.owner,
     "nameserver 127.0.0.1", "port " + Decimal(port)]
  }

  function ReverseTextLines(port: nat): seq<string> {
    [MANAGED_MARKER, REVERSE_SCOPE_MARKER, "nameserver 127.0.0.1", "port " + Decimal(port)]
  }

  function ResolverContent(scope: Scope, port: nat): string { Terminated(ResolverTextLines(scope, port)) }

  function ReverseContent(port: nat): string { Terminated(ReverseTextLines(port)) }

  /** `ensure_owned`: all three marker lines are present. */
  predicate Owned(text: string, scope: Scope) {
    && MANAGED_MARKER in Lines(text)
    && PROJECT_LINE + scope.project in Lines(text)
    && OWNER_LINE + scope.owner in Lines(text)
  }

  predicate ManagedReverse(text: string) {
    MANAGED_MARKER in Lines(text) && REVERSE_SCOPE_MARKER in Lines(text)
  }

  /** What `has_other_managed_resolver` looks for. */
  predicate ManagedProject(text: string) {
    MANAGED_MARKER in Lines(text) && exists i :: 0 <= i < |Lines(text)| && StartsWith(Lines(text)[i], PROJECT_LINE)
  }

  lemma PortLine(port: nat)
    ensures SingleLine("port " + Decimal(port))
  {
    DecimalHasNo(port, '\n');
    DecimalHasNo(port, '\r');
  }

  lemma MarkersAreSingleLines()
    ensures SingleLine(MANAGED_MARKER) && SingleLine(REVERSE_SCOPE_MARKER)
  {
  }

  lemma PrefixesAreSingleLines()
    ensures SingleLine(PROJECT_LINE) && SingleLine(OWNER_LINE)
  {
  }

  lemma NameserverIsSingleLine()
    ensures SingleLine("nameserver 127.0.0.1")
  {
  }

  lemma ResolverLines(scope: Scope, port: nat)
    requires ValidScope(scope)
    ensures Lines(ResolverContent(scope, port)) == ResolverTextLines(scope, port)
  {
    PortLine(port);
    MarkersAreSingleLines();
    PrefixesAreSingleLines();
    NameserverIsSingleLine();
    var lines := ResolverTextLines(scope, port);
    assert SingleLine(lines[1]) && SingleLine(lines[2]);
    LinesOfTerminated(lines);
  }

  lemma ReverseLines(port: nat)
    ensures Lines(ReverseContent(port)) == ReverseTextLines(port)
  {
    PortLine(port);
    MarkersAreSingleLines();
    NameserverIsSingleLine();
    LinesOfTerminated(ReverseTextLines(port));
  }

  /** The third character tells the marker lines apart. */
  lemma MarkerKinds(scope: Scope, port: nat, i: nat)
    requires i < 5
    ensures |ResolverTextLines(scope, port)[i]| > 2
    ensures ResolverTextLines(scope, port)[i][2] == "mpomr"[i]
  {
    var lines := ResolverTextLines(scope, port);
    assert lines[3] == "nameserver 127.0.0.1" && lines[4] == "port " + Decimal(port);
  }

  lemma ProjectLineIn(scope: Scope, port: nat, project: string)
    ensures PROJECT_LINE + project in ResolverTextLines(scope, port) <==> project == scope.project
  {
    var lines, p := ResolverTextLines(scope, port), PROJECT_LINE + project;
    assert lines[1] == PROJECT_LINE + scope.project;
    if i :| 0 <= i < 5 && lines[i] == p {
      MarkerKinds(scope, port, i);
      assert p[2] == 'p';
      assert p[|PROJECT_LINE|..] == project && lines[1][|PROJECT_LINE|..] == scope.project;
    }
  }

  lemma OwnerLineIn(scope: Scope, port: nat, owner: string)
    ensures OWNER_LINE + owner in ResolverTextLines(scope, port) <==> owner == scope.owner
  {
    var lines, o := ResolverTextLines(scope, port), OWNER_LINE + owner;
    assert lines[2] == OWNER_LINE + scope.owner;
    if i :| 0 <= i < 5 && lines[i] == o {
      MarkerKinds(scope, port, i);
      assert o[2] == 'o';
      assert o[|OWNER_LINE|..] == owner && lines[2][|OWNER_LINE|..] == scope.owner;
    }
  }

  /** A published project file belongs to its own scope and to no other. */
  lemma ContentOwnedOnlyBy(scope: Scope, port: nat, other: Scope)
    requires ValidScope(scope)
    ensures Owned(ResolverContent(scope, port), other) <==> other == scope
  {
    ResolverLines(scope, port);
    assert ResolverTextLines(scope, port)[0] == MANAGED_MARKER;
    ProjectLineIn(scope, port, other.project);
    OwnerLineIn(scope, port, other.owner);
  }

  lemma ContentIsManagedProject(scope: Scope, port: nat)
    requires ValidScope(scope)
    ensures ManagedProject(ResolverContent(scope, port))
  {
    ResolverLines(scope, port);
    var lines := Lines(ResolverContent(scope, port));
    assert lines[0] == MANAGED_MARKER;
    assert lines[1] == PROJECT_LINE + scope.project && StartsWith(lines[1], PROJECT_LINE);
  }

  lemma ReverseContentIsManaged(port: nat)
    ensures ManagedReverse(ReverseContent(port))
  {
    ReverseLines(port);
    assert Lines(ReverseContent(port))[0] == MANAGED_MARKER;
    assert Lines(ReverseContent(port))[1] == REVERSE_SCOPE_MARKER;
  }

  // ----- what a reader of the files finds -----

  /** The rest of the first line with a given beginning. */
  function Setting(lines: seq<string>, key: string): Option<string> {
    if lines == [] then None
    else if StartsWith(lines[0], key) then Some(lines[0][|key|..])
    else Setting(lines[1..], key)
  }

  /** The server and port that lines of a resolver file name. */
  function ReadSettings(lines: seq<string>): Option<(string, nat)> {
    var server, port := Setting(lines, "nameserver "), Setting(lines, "port ");
    if server.None? || port.None? || ParseUnsigned(port.value, 65535).None? then None
    else Some((server.value, ParseUnsigned(port.value, 65535).value))
  }

  function ReadResolver(text: string): Option<(string, nat)> { ReadSettings(Lines(text)) }

  lemma {:induction false} SettingAt(lines: seq<string>, key: string, value: string, i: nat)
    requires key != "" && i < |lines| && lines[i] == key + value
    requires forall k :: 0 <= k < i ==> lines[k] != "" && lines[k][0] != key[0]
    ensures Setting(lines, key) == Some(value)
  {
    if i > 0 {
      SettingAt(lines[1..], key, value, i - 1);
    } else {
      assert (key + value)[|key|..] == value;
    }
  }

  lemma ServerLine()
    ensures "nameserver 127.0.0.1" == "nameserver " + "127.0.0.1"
  {
  }

  lemma ServerSetting(lines: seq<string>, i: nat)
    requires i < |lines| && lines[i] == "nameserver " + "127.0.0.1"
    requires forall k :: 0 <= k < i ==> lines[k] != "" && lines[k][0] == '#'
    ensures Setting(lines, "nameserver ") == Some("127.0.0.1")
  {
    SettingAt(lines, "nameserver ", "127.0.0.1", i);
  }

  lemma PortSetting(lines: seq<string>, i: nat, port: nat)
    requires i < |lines| && lines[i] == "port " + Decimal(port) && port < 0x1_0000
    requires forall k :: 0 <= k < i ==> lines[k] != "" && lines[k][0] in {'#', 'n'}
    ensures Setting(lines, "port ") == Some(Decimal(port)) && ParseUnsigned(Decimal(port), 65535) == Some(port)
  {
    SettingAt(lines, "port ", Decimal(port), i);
    ParseDecimal(port, 65535);
  }

  lemma SettingsRead(lines: seq<string>, server: string, port: string, number: nat)
    requires Setting(lines, "nameserver ") == Some(server) && Setting(lines, "port ") == Some(port)
    requires ParseUnsigned(port, 65535) == Some(number)
    ensures ReadSettings(lines) == Some((server, number))
  {
  }

  /** Comments, the server, the port. */
  lemma LinesRead(comments: seq<string>, port: nat)
    requires port < 0x1_0000 && forall k :: 0 <= k < |comments| ==> comments[k] != "" && comments[k][0] == '#'
    ensures ReadSettings(comments + ["nameserver 127.0.0.1", "port " + Decimal(port)]) == Some(("127.0.0.1", port))
  {
    var lines, n := comments + ["nameserver 127.0.0.1", "port " + Decimal(port)], |comments|;
    assert lines[n] == "nameserver 127.0.0.1" && lines[n][0] == 'n';
    ServerLine();
    ServerSetting(lines, n);
    PortSetting(lines, n + 1, port);
    SettingsRead(lines, "127.0.0.1", Decimal(port), port);
  }

  /** Both kinds of file name the local server at the port they were written for. */
  lemma ContentReads(scope: Scope, port: nat)
    requires ValidScope(scope) && port < 0x1_0000
    ensures ReadResolver(ResolverContent(scope, port)) == Some(("127.0.0.1", port))
    ensures ReadResolver(ReverseContent(port)) == Some(("127.0.0.1", port))
  {
    ResolverLines(scope, port);
    ReverseLines(port);
    var comments := [MANAGED_MARKER, PROJECT_LINE + scope.project, OWNER_LINE + scope.owner];
    LinesRead(comments, port);
    LinesRead([MANAGED_MARKER, REVERSE_SCOPE_MARKER], port);
    assert ResolverTextLines(scope, port) == comments + ["nameserver 127.0.0.1", "port " + Decimal(port)];
    assert ReverseTextLines(port)
      == [MANAGED_MARKER, REVERSE_SCOPE_MARKER] + ["nameserver 127.0.0.1", "port " + Decimal(port)];
  }

  /** A file without the marker line belongs to nobody and is managed by nobody. */
  lemma UnmarkedIsForeign(text: string, scope: Scope)
    requires "# managed-by: vzctl" !in Lines(text)
    ensures !Owned(text, scope) && !ManagedReverse(text) && !ManagedProject(text)
  {
  }

  /** What is written for a project is no zone file, and the other way round. */
  lemma KindsAreApart(scope: Scope, other: Scope, port: nat)
    requires ValidScope(scope)
    ensures !ManagedReverse(ResolverContent(scope, port))
    ensures !ManagedProject(ReverseContent(port)) && !Owned(ReverseContent(port), other)
  {
    ProjectIsNoZone(scope, port);
    ZoneIsNoProject(port, other);
  }

  lemma NoScopeMarker(scope: Scope, port: nat)
    ensures REVERSE_SCOPE_MARKER !in ResolverTextLines(scope, port)
  {
    forall i | 0 <= i < 5 ensures ResolverTextLines(scope, port)[i] != REVERSE_SCOPE_MARKER {
      MarkerKinds(scope, port, i);
    }
  }

  lemma ProjectIsNoZone(scope: Scope, port: nat)
    requires ValidScope(scope)
    ensures !ManagedReverse(ResolverContent(scope, port))
  {
    ResolverLines(scope, port);
    NoScopeMarker(scope, port);
  }

  lemma ReverseKinds(port: nat, i: nat)
    requires i < 4
    ensures |ReverseTextLines(port)[i]| > 2 && ReverseTextLines(port)[i][2] == "msmr"[i]
  {
    assert ReverseTextLines(port)[2] == "nameserver 127.0.0.1" && ReverseTextLines(port)[3] == "port " + Decimal(port);
  }

  lemma ZoneIsNoProject(port: nat, other: Scope)
    ensures !ManagedProject(ReverseContent(port)) && !Owned(ReverseContent(port), other)
  {
    ReverseLines(port);
    var lines := ReverseTextLines(port);
    forall i | 0 <= i < 4 ensures !StartsWith(lines[i], PROJECT_LINE) {
      ReverseKinds(port, i);
    }
    if i :| 0 <= i < 4 && lines[i] == PROJECT_LINE + other.project {
      assert StartsWith(lines[i], PROJECT_LINE);
    }
  }

  // ----- names -----

  function ResolverName(project: string): string { project + PROJECT_SUFFIX }

  /** The zone files `install` publishes; the legacy catch-all is not one of them. */
  predicate ZoneName(name: string) { EndsWith(name, "." + LEGACY_REVERSE) }

  predicate ReverseName(name: string) { name == LEGACY_REVERSE || ZoneName(name) }

  lemma NamesAreApart(project: string, other: string, zone: string)
    requires ReverseName(zone)
    ensures ResolverName(project) != zone && !ZoneName(LEGACY_REVERSE)
    ensures ResolverName(project) == ResolverName(other) ==> project == other
    ensures EndsWith(ResolverName(project), PROJECT_SUFFIX)
  {
    var name := ResolverName(project);
    assert name[|name| - 1] == 't';
    assert LEGACY_REVERSE[|LEGACY_REVERSE| - 1] == 'a';
    if ZoneName(zone) {
      var suffix := "." + LEGACY_REVERSE;
      assert zone[|zone| - 1] == zone[|zone| - |suffix|..][|suffix| - 1];
    }
    if name == ResolverName(other) {
      assert project == name[..|name| - |PROJECT_SUFFIX|] == other;
    }
  }
}
