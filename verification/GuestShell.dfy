/**
 Shell scripts on a guest, over calls that may fail at any point: a script runs op by op, an
 op can be cut short, and the reply can be lost after any part of it.
 */
module GuestShell {
  import opened Wrappers
  import opened Base64

  type Blob = seq<bv8>

  datatype File = File(content: Blob, mode: string)

  type Files = map<string, File>

  /** SHA-256, and what `serde_json` finds under "bundle_id" in a manifest. */
  datatype Tools = Tools(sha: Blob -> string, bundleId: Blob -> Option<string>)

  datatype Op =
    | Write(path: string, content: Blob)
    | Append(path: string, input: Blob)
    | DecodeBase64(src: string, dst: string)
    | Chmod(path: string, mode: string)
    | Rename(src: string, dst: string)     // mv within one directory
    | Transfer(src: string, dst: string)   // mv that may cross file systems
    | Remove(path: string)
    | CheckHash(path: string, expected: string)
    | Backup(src: string, dst: string)     // cp -f ... || true, if the source exists

  /** What becomes of one call: how many ops complete, what the op after them leaves behind,
      what of the input arrives, whether a backup copy works, and the reply. */
  datatype Outcome = Outcome(
    steps: nat, begun: bool, cut: nat, arrived: Blob -> Blob, copies: bool,
    lost: Option<string>, exit: nat, truncated: bool, healthy: bool, version: Option<string>)

  datatype Reply = Answer(exit: nat, truncated: bool) | CallFailed(message: string)

  function At(files: Files, p: string): Option<File> { if p in files then Some(files[p]) else None }

  function ModeAt(files: Files, p: string): string { if p in files then files[p].mode else "0644" }

  function ContentAt(files: Files, p: string): Blob { if p in files then files[p].content else [] }

  function Prefix(b: Blob, n: nat): Blob { if n < |b| then b[..n] else b }

  // ----- text and bytes -----

  const NEWLINE: bv8 := 10

  function ByteOf(c: char): bv8 { (c as int % 256) as bv8 }

  function Ascii(s: string): Blob { seq(|s|, i requires 0 <= i < |s| => ByteOf(s[i])) }

  function Text(b: Blob): string { seq(|b|, i requires 0 <= i < |b| => (b[i] as int) as char) }

  predicate IsAscii(s: string) { forall i :: 0 <= i < |s| ==> s[i] < 128 as char }

  lemma TextOfAscii(s: string)
    requires IsAscii(s)
    ensures Text(Ascii(s)) == s
  {
  }

  lemma GroupIsAscii(g: seq<bv8>)
    requires 1 <= |g| <= 3
    ensures IsAscii(Group(Standard, g))
  {
    var v := Sextets(g);
    forall i | 0 <= i < |v| ensures Symbol(Standard, v[i]) < 128 as char {
      SixBits(v[i], 0);
    }
  }

  lemma {:induction false} GroupsAreAscii(code: seq<bv8> -> string, bytes: seq<bv8>)
    requires forall g :: 1 <= |g| <= 3 ==> IsAscii(code(g))
    ensures IsAscii(InGroups(code, bytes))
    decreases |bytes|
  {
    if bytes != [] {
      GroupsAreAscii(code, bytes[Take(|bytes|, 3)..]);
    }
  }

  /** `base64 -d` of a text ending in a newline. */
  function DecodedText(b: Blob): Option<Blob> {
    if b == [] || b[|b| - 1] != NEWLINE then None else Decoded(Standard, Text(b[..|b| - 1]))
  }

  function EncodedText(b: Blob): Blob { Ascii(Encoded(Standard, b)) + [NEWLINE] }

  lemma EncodedTextDecodes(b: Blob)
    ensures DecodedText(EncodedText(b)) == Some(b)
  {
    var s := Encoded(Standard, b);
    forall g | 1 <= |g| <= 3 ensures IsAscii(GroupCode(Standard)(g)) {
      GroupIsAscii(g);
    }
    GroupsAreAscii(GroupCode(Standard), b);
    TextOfAscii(s);
    assert EncodedText(b)[..|s|] == Ascii(s);
    DecodedIffEncoded(Standard, s, b);
  }

  // ----- one op -----

  /** The paths an op may change. */
  function Touched(op: Op): set<string> {
    match op
    case Write(p, _) => {p}
    case Append(p, _) => {p}
    case DecodeBase64(_, dst) => {dst}
    case Chmod(p, _) => {p}
    case Rename(src, dst) => {src, dst}
    case Transfer(src, dst) => {src, dst}
    case Remove(p) => {p}
    case CheckHash(_, _) => {}
    case Backup(_, dst) => {dst}
  }

  function Moved(files: Files, src: string, dst: string): Option<Files> {
    if src in files then Some((files - {src})[dst := files[src]]) else None
  }

  /** The op carried out completely; None when it exits with an error instead. */
  function Done(t: Tools, op: Op, files: Files, o: Outcome): Option<Files> {
    match op
    case Write(p, content) => Some(files[p := File(content, ModeAt(files, p))])
    case Append(p, input) => Some(files[p := File(ContentAt(files, p) + o.arrived(input), ModeAt(files, p))])
    case DecodeBase64(src, dst) =>
      var decoded := DecodedText(ContentAt(files, src));
      if decoded.Some? then Some(files[dst := File(decoded.value, ModeAt(files, dst))]) else None
    case Chmod(p, mode) => if p in files then Some(files[p := files[p].(mode := mode)]) else None
    case Rename(src, dst) => Moved(files, src, dst)
    case Transfer(src, dst) => Moved(files, src, dst)
    case Remove(p) => Some(files - {p})
    case CheckHash(p, expected) => if p in files && t.sha(files[p].content) == expected then Some(files) else None
    case Backup(src, dst) =>
      if src !in files then Some(files)
      else if o.copies then Some(files[dst := File(files[src].content, ModeAt(files, dst))])
      else Some(Interrupted(op, files, o))
  }

  /** What an op leaves when it is cut short: renaming is atomic, everything that copies bytes
      may leave a part of them. */
  function Interrupted(op: Op, files: Files, o: Outcome): Files {
    if !o.begun then files
    else
      match op
      case Write(p, content) => files[p := File(Prefix(content, o.cut), ModeAt(files, p))]
      case Append(p, input) =>
        files[p := File(ContentAt(files, p) + Prefix(o.arrived(input), o.cut), ModeAt(files, p))]
      case DecodeBase64(src, dst) =>
        var decoded := DecodedText(ContentAt(files, src));
        files[dst := File(if decoded.Some? then Prefix(decoded.value, o.cut) else [], ModeAt(files, dst))]
      case Transfer(src, dst) => files[dst := File(Prefix(ContentAt(files, src), o.cut), ModeAt(files, dst))]
      case Backup(src, dst) => files[dst := File(Prefix(ContentAt(files, src), o.cut), ModeAt(files, dst))]
      case _ => files
  }

  lemma OpFrame(t: Tools, op: Op, files: Files, o: Outcome, p: string)
    requires p !in Touched(op)
    ensures At(Interrupted(op, files, o), p) == At(files, p)
    ensures Done(t, op, files, o).Some? ==> At(Done(t, op, files, o).value, p) == At(files, p)
  {
  }

  // ----- scripts -----

  /** A script under `set -e`: the state it leaves, and whether it ran to its end. */
  function Run(t: Tools, ops: seq<Op>, files: Files, o: Outcome): (Files, bool)
    decreases |ops|
  {
    if ops == [] then (files, true)
    else if o.steps == 0 then (Interrupted(ops[0], files, o), false)
    else
      var next := Done(t, ops[0], files, o);
      if next.None? then (Interrupted(ops[0], files, o), false)
      else Run(t, ops[1..], next.value, o.(steps := o.steps - 1))
  }

  /** The call around a script. A script that did not end well never exits with zero. */
  function Called(t: Tools, ops: seq<Op>, files: Files, o: Outcome): (Files, Reply) {
    var (after, ended) := Run(t, ops, files, o);
    (after,
     if o.lost.Some? then CallFailed(o.lost.value)
     else Answer(if ended || o.exit != 0 then o.exit else 1, o.truncated))
  }

  lemma {:induction false} RunFrame(t: Tools, ops: seq<Op>, files: Files, o: Outcome, p: string)
    requires forall op :: op in ops ==> p !in Touched(op)
    ensures At(Run(t, ops, files, o).0, p) == At(files, p)
    decreases |ops|
  {
    if ops != [] {
      OpFrame(t, ops[0], files, o, p);
      var next := Done(t, ops[0], files, o);
      if o.steps > 0 && next.Some? {
        RunFrame(t, ops[1..], next.value, o.(steps := o.steps - 1), p);
      }
    }
  }

  /** A script is its beginning, then, if that ended well, its last op. */
  lemma {:induction false} RunLast(t: Tools, ops: seq<Op>, last: Op, files: Files, o: Outcome) returns (rest: Outcome)
    ensures
      var (mid, ended) := Run(t, ops, files, o);
      Run(t, ops + [last], files, o) == if ended then Run(t, [last], mid, rest) else (mid, false)
    decreases |ops|
  {
    var all := ops + [last];
    if ops == [] {
      assert all == [last];
      rest := o;
    } else {
      assert all[1..] == ops[1..] + [last] && all[0] == ops[0];
      rest := o;
      var next := Done(t, ops[0], files, o);
      if o.steps > 0 && next.Some? {
        rest := RunLast(t, ops[1..], last, next.value, o.(steps := o.steps - 1));
      }
    }
  }

  /** All but the last op leave `p` alone, and the last renames onto it. */
  lemma AtomicTarget(t: Tools, ops: seq<Op>, src: string, p: string, files: Files, o: Outcome)
    requires src != p && forall op :: op in ops ==> p !in Touched(op)
    ensures
      var (mid, ready) := Run(t, ops, files, o);
      var (after, ended) := Run(t, ops + [Rename(src, p)], files, o);
      && (ended ==> ready && src in mid && At(after, p) == Some(mid[src]))
      && (!ended ==> At(after, p) == At(files, p))
  {
    var rest := RunLast(t, ops, Rename(src, p), files, o);
    RunFrame(t, ops, files, o, p);
    var (mid, ready) := Run(t, ops, files, o);
    if ready {
      assert [Rename(src, p)][1..] == [];
    }
  }

  // ----- the two scripts -----

  const DEPLOY_HEREDOC := Ascii("VZCTL_GUEST_UTILS_DEPLOY_EOF")

  predicate OccursAt(s: Blob, part: Blob, i: int) {
    0 <= i <= |s| - |part| && s[i..i + |part|] == part
  }

  predicate Contains(s: Blob, part: Blob) {
    exists i | 0 <= i <= |s| - |part| :: OccursAt(s, part, i)
  }

  /** A here-document ends its text with a newline; through Base64 the text stays as it is. */
  function DeployedText(content: Blob): Blob {
    if Contains(content, DEPLOY_HEREDOC) then content else content + [NEWLINE]
  }

  /** A text that holds the marker line's word arrives as it is, any other with a newline. */
  lemma DeployedTextIff(content: Blob)
    ensures
      var word := Ascii("VZCTL_GUEST_UTILS_DEPLOY_EOF");
      if exists a, b :: content == a + word + b then DeployedText(content) == content
      else DeployedText(content) == content + [10]
  {
    var word := Ascii("VZCTL_GUEST_UTILS_DEPLOY_EOF");
    if i :| 0 <= i <= |content| - |word| && OccursAt(content, word, i) {
      assert content == content[..i] + word + content[i + |word|..];
    }
    if a, b :| content == a + word + b {
      assert content[|a|..|a| + |word|] == word;
      assert OccursAt(content, word, |a|);
    }
  }

  /** The two ways `deploy_file_shell` stages a text. */
  function StagePlain(path: string, mode: string, content: Blob): seq<Op> {
    [Write(path + ".new", content + [NEWLINE]), Chmod(path + ".new", mode)]
  }

  function StageEncoded(path: string, mode: string, content: Blob): seq<Op> {
    [Write(path + ".new", EncodedText(content)), DecodeBase64(path + ".new", path + ".new.dec"),
     Rename(path + ".new.dec", path + ".new"), Chmod(path + ".new", mode)]
  }

  function StageFile(path: string, mode: string, content: Blob): seq<Op> {
    if Contains(content, DEPLOY_HEREDOC) then StageEncoded(path, mode, content) else StagePlain(path, mode, content)
  }

  function DeployFileShell(path: string, mode: string, content: Blob): seq<Op> {
    StageFile(path, mode, content) + [Rename(path + ".new", path)]
  }

  /** The install script for binaries up to the final rename. */
  function StageBinary(staging: string, target: string, expected: string): seq<Op> {
    [CheckHash(staging, expected), Backup(target, target + ".bak"), Chmod(staging, "0755"),
     Transfer(staging, target + ".new")]
  }

  function InstallScript(staging: string, target: string, expected: string): seq<Op> {
    StageBinary(staging, target, expected) + [Rename(target + ".new", target)]
  }

  lemma Distinct(path: string)
    ensures path + ".new" != path && path + ".new.dec" != path && path + ".new.dec" != path + ".new"
    ensures path + ".bak" != path && path + ".bak" != path + ".new"
  {
    assert |path + ".new.dec"| == |path| + 8 && |path + ".new"| == |path| + 4 == |path + ".bak"|;
    assert (path + ".new")[|path| + 1] == 'n' && (path + ".bak")[|path| + 1] == 'b';
  }

  /** Running one op and then the rest. */
  lemma Peel(t: Tools, ops: seq<Op>, files: Files, o: Outcome) returns (next: Files, rest: Outcome)
    requires ops != [] && Run(t, ops, files, o).1
    ensures Done(t, ops[0], files, o) == Some(next) && rest == o.(steps := rest.steps)
    ensures Run(t, ops[1..], next, rest) == Run(t, ops, files, o)
  {
    next, rest := Done(t, ops[0], files, o).value, o.(steps := o.steps - 1);
  }

  lemma StagedPlain(t: Tools, path: string, mode: string, content: Blob, files: Files, o: Outcome)
    requires Run(t, StagePlain(path, mode, content), files, o).1
    ensures At(Run(t, StagePlain(path, mode, content), files, o).0, path + ".new")
         == Some(File(content + [NEWLINE], mode))
  {
    var ops := StagePlain(path, mode, content);
    var f1, o1 := Peel(t, ops, files, o);
    var f2, _ := Peel(t, ops[1..], f1, o1);
    assert ops[1..][1..] == [];
  }

  lemma StagedThrough(t: Tools, target: string, decoded: string, mode: string, wire: Blob, content: Blob,
                      files: Files, o: Outcome)
    requires target != decoded && DecodedText(wire) == Some(content)
    requires
      Run(t, [Write(target, wire), DecodeBase64(target, decoded), Rename(decoded, target), Chmod(target, mode)],
          files, o).1
    ensures
      At(Run(t, [Write(target, wire), DecodeBase64(target, decoded), Rename(decoded, target), Chmod(target, mode)],
             files, o).0, target) == Some(File(content, mode))
  {
    var ops := [Write(target, wire), DecodeBase64(target, decoded), Rename(decoded, target), Chmod(target, mode)];
    var f1, o1 := Peel(t, ops, files, o);
    assert ContentAt(f1, target) == wire;
    var f2, o2 := Peel(t, ops[1..], f1, o1);
    assert f2[decoded].content == content;
    assert ops[1..][1..] == [Rename(decoded, target), Chmod(target, mode)];
    StagedTail(t, target, decoded, mode, f2, o2);
  }

  lemma StagedTail(t: Tools, target: string, decoded: string, mode: string, files: Files, o: Outcome)
    requires target != decoded && decoded in files && Run(t, [Rename(decoded, target), Chmod(target, mode)], files, o).1
    ensures At(Run(t, [Rename(decoded, target), Chmod(target, mode)], files, o).0, target)
         == Some(File(files[decoded].content, mode))
  {
    var ops := [Rename(decoded, target), Chmod(target, mode)];
    var f1, o1 := Peel(t, ops, files, o);
    var f2, _ := Peel(t, ops[1..], f1, o1);
    assert ops[1..][1..] == [];
  }

  lemma StagedEncoded(t: Tools, path: string, mode: string, content: Blob, files: Files, o: Outcome)
    requires Run(t, StageEncoded(path, mode, content), files, o).1
    ensures At(Run(t, StageEncoded(path, mode, content), files, o).0, path + ".new") == Some(File(content, mode))
  {
    Distinct(path);
    EncodedTextDecodes(content);
    StagedThrough(t, path + ".new", path + ".new.dec", mode, EncodedText(content), content, files, o);
  }

  lemma StagedFile(t: Tools, path: string, mode: string, content: Blob, files: Files, o: Outcome)
    requires Run(t, StageFile(path, mode, content), files, o).1
    ensures At(Run(t, StageFile(path, mode, content), files, o).0, path + ".new")
         == Some(File(DeployedText(content), mode))
  {
    if Contains(content, DEPLOY_HEREDOC) {
      StagedEncoded(t, path, mode, content, files, o);
    } else {
      StagedPlain(t, path, mode, content, files, o);
    }
  }

  /** What a script changes lies among the paths its ops touch. */
  lemma ScriptFrame(t: Tools, ops: seq<Op>, files: Files, o: Outcome, paths: set<string>)
    requires forall op :: op in ops ==> Touched(op) <= paths
    ensures forall p :: p !in paths ==> At(Run(t, ops, files, o).0, p) == At(files, p)
  {
    forall p | p !in paths ensures At(Run(t, ops, files, o).0, p) == At(files, p) {
      RunFrame(t, ops, files, o, p);
    }
  }

  lemma StageFileTouches(path: string, mode: string, content: Blob)
    ensures forall op :: op in StageFile(path, mode, content) ==> Touched(op) <= {path + ".new", path + ".new.dec"}
  {
    var paths := {path + ".new", path + ".new.dec"};
    assert forall op :: op in StagePlain(path, mode, content) ==> Touched(op) <= paths;
    assert forall op :: op in StageEncoded(path, mode, content) ==> Touched(op) <= paths;
  }

  /** A script that stages a file beside `p` and then renames it onto `p`. */
  lemma StagedThenRenamed(t: Tools, ops: seq<Op>, src: string, p: string, paths: set<string>, staged: File,
                          files: Files, o: Outcome)
    requires src != p && src in paths && p !in paths && forall op :: op in ops ==> Touched(op) <= paths
    requires Run(t, ops, files, o).1 ==> At(Run(t, ops, files, o).0, src) == Some(staged)
    ensures
      var (after, ended) := Run(t, ops + [Rename(src, p)], files, o);
      && (ended ==> At(after, p) == Some(staged))
      && (!ended ==> At(after, p) == At(files, p))
      && (forall q :: q !in paths + {p} ==> At(after, q) == At(files, q))
  {
    AtomicTarget(t, ops, src, p, files, o);
    ScriptFrame(t, ops + [Rename(src, p)], files, o, paths + {p});
  }

  /** The file is replaced in one step or not at all, and success means it was. */
  lemma DeployEffect(t: Tools, path: string, mode: string, content: Blob, files: Files, o: Outcome)
    ensures
      var (after, ended) := Run(t, DeployFileShell(path, mode, content), files, o);
      && (ended ==> At(after, path) == Some(File(DeployedText(content), mode)))
      && (!ended ==> At(after, path) == At(files, path))
      && (forall p :: p !in {path, path + ".new", path + ".new.dec"} ==> At(after, p) == At(files, p))
  {
    Distinct(path);
    StageFileTouches(path, mode, content);
    if Run(t, StageFile(path, mode, content), files, o).1 {
      StagedFile(t, path, mode, content, files, o);
    }
    StagedThenRenamed(t, StageFile(path, mode, content), path + ".new", path, {path + ".new", path + ".new.dec"},
                      File(DeployedText(content), mode), files, o);
  }

  lemma StagedBinary(t: Tools, staging: string, target: string, expected: string, files: Files, o: Outcome)
    requires staging !in {target, target + ".new", target + ".bak"}
    requires Run(t, StageBinary(staging, target, expected), files, o).1
    ensures staging in files && t.sha(files[staging].content) == expected
    ensures At(Run(t, StageBinary(staging, target, expected), files, o).0, target + ".new")
         == Some(File(files[staging].content, "0755"))
    ensures target in files && o.copies ==>
      ContentAt(Run(t, StageBinary(staging, target, expected), files, o).0, target + ".bak") == files[target].content
  {
    Distinct(target);
    var ops, bak := StageBinary(staging, target, expected), target + ".bak";
    var f1, o1 := Peel(t, ops, files, o);
    var f2, o2 := Peel(t, ops[1..], f1, o1);
    var f3, o3 := Peel(t, ops[1..][1..], f2, o2);
    var f4, _ := Peel(t, ops[1..][1..][1..], f3, o3);
    assert ops[1..][1..][1..][1..] == [];
    OpFrame(t, ops[1], f1, o1, staging);
    OpFrame(t, Chmod(staging, "0755"), f2, o2, bak);
    OpFrame(t, Transfer(staging, target + ".new"), f3, o3, bak);
    assert At(f4, bak) == At(f2, bak);
  }

  /** The final rename leaves the backup alone. */
  lemma BackupStays(t: Tools, ops: seq<Op>, target: string, files: Files, o: Outcome)
    requires Run(t, ops, files, o).1
    ensures At(Run(t, ops + [Rename(target + ".new", target)], files, o).0, target + ".bak")
      == At(Run(t, ops, files, o).0, target + ".bak")
  {
    Distinct(target);
    var rest := RunLast(t, ops, Rename(target + ".new", target), files, o);
    RunFrame(t, [Rename(target + ".new", target)], Run(t, ops, files, o).0, rest, target + ".bak");
  }

  /** The target is replaced in one step by what was staged, and only if its hash is the
      expected one; otherwise it is not touched. After a replacement the backup holds the former
      content, if copying works. */
  lemma InstallEffect(t: Tools, staging: string, target: string, expected: string, files: Files, o: Outcome)
    requires staging !in {target, target + ".new", target + ".bak"}
    ensures
      var (after, ended) := Run(t, InstallScript(staging, target, expected), files, o);
      && (ended ==> staging in files && t.sha(files[staging].content) == expected
                    && At(after, target) == Some(File(files[staging].content, "0755")))
      && (ended && target in files && o.copies ==> ContentAt(after, target + ".bak") == files[target].content)
      && (!ended ==> At(after, target) == At(files, target))
      && (forall p :: p !in {staging, target, target + ".new", target + ".bak"} ==> At(after, p) == At(files, p))
  {
    Distinct(target);
    var ops := StageBinary(staging, target, expected);
    AtomicTarget(t, ops, target + ".new", target, files, o);
    if Run(t, ops, files, o).1 {
      StagedBinary(t, staging, target, expected, files, o);
      BackupStays(t, ops, target, files, o);
    }
    ScriptFrame(t, InstallScript(staging, target, expected), files, o,
                {staging, target, target + ".new", target + ".bak"});
  }

  // ----- when scripts end well -----

  predicate Calm(o: Outcome) { o.steps >= 10 && o.lost.None? && o.exit == 0 && !o.truncated }

  lemma Unroll(t: Tools, ops: seq<Op>, files: Files, o: Outcome) returns (next: Files, rest: Outcome)
    requires ops != [] && o.steps > 0 && Done(t, ops[0], files, o).Some?
    ensures Done(t, ops[0], files, o) == Some(next) && rest.steps == o.steps - 1
    ensures Run(t, ops, files, o) == Run(t, ops[1..], next, rest)
  {
    next, rest := Done(t, ops[0], files, o).value, o.(steps := o.steps - 1);
  }

  lemma PlainDeployEnds(t: Tools, path: string, target: string, mode: string, text: Blob, files: Files, o: Outcome)
    requires path != target && o.steps >= 10
    ensures Run(t, [Write(target, text), Chmod(target, mode), Rename(target, path)], files, o).1
  {
    var ops := [Write(target, text), Chmod(target, mode), Rename(target, path)];
    var f1, o1 := Unroll(t, ops, files, o);
    var f2, o2 := Unroll(t, ops[1..], f1, o1);
    var f3, _ := Unroll(t, ops[1..][1..], f2, o2);
    assert ops[1..][1..][1..] == [];
  }

  lemma EncodedDeployEnds(t: Tools, path: string, target: string, decoded: string, mode: string, wire: Blob,
                          files: Files, o: Outcome)
    requires path != target && target != decoded && o.steps >= 10 && DecodedText(wire).Some?
    ensures Run(t, [Write(target, wire), DecodeBase64(target, decoded), Rename(decoded, target), Chmod(target, mode),
                    Rename(target, path)], files, o).1
  {
    var ops := [Write(target, wire), DecodeBase64(target, decoded), Rename(decoded, target), Chmod(target, mode),
                Rename(target, path)];
    var f1, o1 := Unroll(t, ops, files, o);
    assert ContentAt(f1, target) == wire;
    var f2, o2 := Unroll(t, ops[1..], f1, o1);
    var f3, o3 := Unroll(t, ops[1..][1..], f2, o2);
    PlainTail(t, path, target, mode, f3, o3);
    assert ops[1..][1..][1..] == [Chmod(target, mode), Rename(target, path)];
  }

  lemma PlainTail(t: Tools, path: string, target: string, mode: string, files: Files, o: Outcome)
    requires path != target && o.steps >= 2 && target in files
    ensures Run(t, [Chmod(target, mode), Rename(target, path)], files, o).1
  {
    var ops := [Chmod(target, mode), Rename(target, path)];
    var f1, o1 := Unroll(t, ops, files, o);
    var f2, _ := Unroll(t, ops[1..], f1, o1);
    assert ops[1..][1..] == [];
  }

  /** Deploying a file on a calm guest succeeds. */
  lemma DeployEnds(t: Tools, path: string, mode: string, content: Blob, files: Files, o: Outcome)
    requires Calm(o)
    ensures Run(t, DeployFileShell(path, mode, content), files, o).1
  {
    Distinct(path);
    var target, decoded := path + ".new", path + ".new.dec";
    if Contains(content, DEPLOY_HEREDOC) {
      EncodedTextDecodes(content);
      var wire := EncodedText(content);
      EncodedDeployEnds(t, path, target, decoded, mode, wire, files, o);
      assert DeployFileShell(path, mode, content)
        == [Write(target, wire), DecodeBase64(target, decoded), Rename(decoded, target), Chmod(target, mode),
            Rename(target, path)];
    } else {
      var text := content + [NEWLINE];
      PlainDeployEnds(t, path, target, mode, text, files, o);
      assert DeployFileShell(path, mode, content) == [Write(target, text), Chmod(target, mode), Rename(target, path)];
    }
  }

  /** Installing a staged binary with the expected hash on a calm guest succeeds. */
  lemma InstallEnds(t: Tools, staging: string, target: string, expected: string, files: Files, o: Outcome)
    requires Calm(o) && staging !in {target, target + ".new", target + ".bak"}
    requires staging in files && t.sha(files[staging].content) == expected
    ensures Run(t, InstallScript(staging, target, expected), files, o).1
  {
    Distinct(target);
    var ops := InstallScript(staging, target, expected);
    var f1, o1 := Unroll(t, ops, files, o);
    var f2, o2 := Unroll(t, ops[1..], f1, o1);
    OpFrame(t, ops[1], f1, o1, staging);
    var f3, o3 := Unroll(t, ops[1..][1..], f2, o2);
    var f4, o4 := Unroll(t, ops[1..][1..][1..], f3, o3);
    var f5, _ := Unroll(t, ops[1..][1..][1..][1..], f4, o4);
    assert ops[1..][1..][1..][1..][1..] == [];
  }
}
