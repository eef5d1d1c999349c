/**
 * `checkUpdate`: the freshly fetched script is copied line by line into the
 * temporary file, behind the running script's shebang. A four-state flag
 * walks the lines: until the `__version__` line it only looks for that line
 * (and gives up if its version is not newer); after it, the first
 * non-comment line mentioning `username` is replaced by the in-memory
 * username; after that, the first non-comment line mentioning `password` is
 * replaced by the in-memory password.
 */
module SelfUpdate {
  import opened Wrappers
  import opened Strings
  import opened Patterns
  import opened Version

  /** Which line the flag machine is waiting for. */
  datatype Target = VersionMarker | Setting(key: string)

  /** The test the loop applies to a fetched line once its newline is put back. */
  predicate Hit(t: Target, line: string) {
    var l := line + "\n";
    match t
    case VersionMarker => Contains(l, "__version__")
    case Setting(key) => l[0] != '#' && Contains(l, key)
  }

  /** First line at or after `from` that passes the test for `t`. */
  function Find(lines: seq<string>, from: nat, t: Target): (r: Option<nat>)
    ensures r.Some? ==> from <= r.value < |lines| && Hit(t, lines[r.value])
    ensures r.Some? ==> forall k | from <= k < r.value :: !Hit(t, lines[k])
    ensures r.None? ==> forall k | from <= k < |lines| :: !Hit(t, lines[k])
    decreases |lines| - from
  {
    if from >= |lines| then None
    else if Hit(t, lines[from]) then Some(from)
    else Find(lines, from + 1, t)
  }

  /** The line holding `__version__`, if any. */
  function VersionIndex(lines: seq<string>): Option<nat> {
    Find(lines, 0, VersionMarker)
  }

  /** The username line the update rewrites: the first setting line after the version line. */
  function UserIndex(lines: seq<string>): (u: Option<nat>)
    ensures u.Some? ==> VersionIndex(lines).Some? && VersionIndex(lines).value < u.value < |lines|
    ensures u.Some? ==> Hit(Setting("username"), lines[u.value])
    ensures u.Some? ==> forall k | VersionIndex(lines).value < k < u.value :: !Hit(Setting("username"), lines[k])
    ensures VersionIndex(lines).Some? && u.None? ==> forall k | VersionIndex(lines).value < k < |lines| :: !Hit(Setting("username"), lines[k])
  {
    match VersionIndex(lines)
    case None => None
    case Some(v) => Find(lines, v + 1, Setting("username"))
  }

  /** The password line the update rewrites: the first setting line after the username line. */
  function PasswordIndex(lines: seq<string>): (p: Option<nat>)
    ensures p.Some? ==> UserIndex(lines).Some? && UserIndex(lines).value < p.value < |lines|
    ensures p.Some? ==> Hit(Setting("password"), lines[p.value])
    ensures p.Some? ==> forall k | UserIndex(lines).value < k < p.value :: !Hit(Setting("password"), lines[k])
    ensures UserIndex(lines).Some? && p.None? ==> forall k | UserIndex(lines).value < k < |lines| :: !Hit(Setting("password"), lines[k])
  {
    match UserIndex(lines)
    case None => None
    case Some(u) => Find(lines, u + 1, Setting("password"))
  }

  function UserSetting(username: string): string {
    "username = \"" + username + "\""
  }

  function PasswordSetting(password: string): string {
    "password = \"" + password + "\""
  }

  /** The fetched lines with the two configuration lines set to the given credentials. */
  function Configure(lines: seq<string>, username: string, password: string): (r: seq<string>)
    ensures |r| == |lines|
    ensures forall i | 0 <= i < |lines| && Some(i) != UserIndex(lines) && Some(i) != PasswordIndex(lines) :: r[i] == lines[i]
  {
    seq(|lines|, i requires 0 <= i < |lines| =>
      if Some(i) == UserIndex(lines) then UserSetting(username)
      else if Some(i) == PasswordIndex(lines) then PasswordSetting(password)
      else lines[i])
  }

  /** Two line sequences that agree on the test up to `Find`'s answer give the same answer. */
  lemma {:induction false} FindAgree(a: seq<string>, b: seq<string>, from: nat, t: Target)
    requires |a| == |b|
    requires forall k | from <= k < |a| && (Find(a, from, t).None? || k <= Find(a, from, t).value) :: Hit(t, a[k]) == Hit(t, b[k])
    ensures Find(b, from, t) == Find(a, from, t)
    decreases |a| - from
  {
    if from < |a| && !Hit(t, a[from]) {
      FindAgree(a, b, from + 1, t);
    }
  }

  lemma SettingLinesHit(username: string, password: string)
    ensures Hit(Setting("username"), UserSetting(username))
    ensures Hit(Setting("password"), PasswordSetting(password))
  {
    var u := UserSetting(username) + "\n";
    var p := PasswordSetting(password) + "\n";
    assert u[..|"username"|] == "username";
    assert p[..|"password"|] == "password";
  }

  /** The version line is found at the same place after configuring. */
  lemma VersionKept(lines: seq<string>, username: string, password: string)
    ensures VersionIndex(Configure(lines, username, password)) == VersionIndex(lines)
  {
    var c := Configure(lines, username, password);
    forall k | 0 <= k < |lines| && (VersionIndex(lines).None? || k <= VersionIndex(lines).value)
      ensures Hit(VersionMarker, lines[k]) == Hit(VersionMarker, c[k])
    {
      assert c[k] == lines[k];
    }
    FindAgree(lines, c, 0, VersionMarker);
  }

  /** The username line is found at the same place after configuring. */
  lemma UserKept(lines: seq<string>, username: string, password: string)
    ensures UserIndex(Configure(lines, username, password)) == UserIndex(lines)
  {
    var c := Configure(lines, username, password);
    VersionKept(lines, username, password);
    SettingLinesHit(username, password);
    match VersionIndex(lines)
    case None =>
    case Some(v) =>
      var t := Setting("username");
      forall k | v + 1 <= k < |lines| && (UserIndex(lines).None? || k <= UserIndex(lines).value)
        ensures Hit(t, lines[k]) == Hit(t, c[k])
      {
        if Some(k) != UserIndex(lines) {
          assert c[k] == lines[k];
        }
      }
      FindAgree(lines, c, v + 1, t);
  }

  /** The password line is found at the same place after configuring. */
  lemma PasswordKept(lines: seq<string>, username: string, password: string)
    ensures PasswordIndex(Configure(lines, username, password)) == PasswordIndex(lines)
  {
    var c := Configure(lines, username, password);
    UserKept(lines, username, password);
    SettingLinesHit(username, password);
    match UserIndex(lines)
    case None =>
    case Some(u) =>
      var t := Setting("password");
      forall k | u + 1 <= k < |lines| && (PasswordIndex(lines).None? || k <= PasswordIndex(lines).value)
        ensures Hit(t, lines[k]) == Hit(t, c[k])
      {
        if Some(k) != PasswordIndex(lines) {
          assert c[k] == lines[k];
        }
      }
      FindAgree(lines, c, u + 1, t);
  }

  /**
   * The credentials survive: in the configured lines the same three lines are
   * found again and the two setting lines now hold the given credentials.
   */
  lemma ConfigureReadBack(lines: seq<string>, username: string, password: string)
    ensures var c := Configure(lines, username, password);
      && VersionIndex(c) == VersionIndex(lines)
      && UserIndex(c) == UserIndex(lines)
      && PasswordIndex(c) == PasswordIndex(lines)
      && (UserIndex(c).Some? ==> c[UserIndex(c).value] == UserSetting(username))
      && (PasswordIndex(c).Some? ==> c[PasswordIndex(c).value] == PasswordSetting(password))
  {
    VersionKept(lines, username, password);
    UserKept(lines, username, password);
    PasswordKept(lines, username, password);
  }

  /** Updating an already-updated script with the same credentials changes nothing. */
  lemma ConfigureIdempotent(lines: seq<string>, username: string, password: string)
    ensures Configure(Configure(lines, username, password), username, password) == Configure(lines, username, password)
  {
    ConfigureReadBack(lines, username, password);
  }

  /** Without a `__version__` line the fetched script is written out verbatim behind the shebang. */
  lemma NoMarkerVerbatim(firstLine: string, lines: seq<string>, username: string, password: string, running: string)
    requires VersionIndex(lines).None?
    ensures Rewrite(firstLine, lines, username, password, running) == Replace([Shebang(firstLine)] + Terminated(lines))
  {
    assert Configure(lines, username, password) == lines;
  }

  /**
   * The flag `checkUpdate` holds once it has passed the first `i` lines
   * (ignoring the version comparison): 0 before the version line, 1 up to the
   * username line, 2 up to the password line, 3 after it.
   */
  function FlagAfter(lines: seq<string>, i: nat): nat {
    var v, u, p := VersionIndex(lines), UserIndex(lines), PasswordIndex(lines);
    if v.None? || i <= v.value then 0
    else if u.None? || i <= u.value then 1
    else if p.None? || i <= p.value then 2
    else 3
  }

  /** The flag transition the loop makes on line `line`. */
  function NextFlag(flag: nat, line: string): nat {
    if flag == 0 && Hit(VersionMarker, line) then 1
    else if flag == 1 && Hit(Setting("username"), line) then 2
    else if flag == 2 && Hit(Setting("password"), line) then 3
    else flag
  }

  /**
   * One step of the loop: the transition keeps the flag in step with the
   * three indices, and the line the loop writes is the configured line.
   */
  lemma Advance(lines: seq<string>, i: nat, username: string, password: string)
    requires i < |lines|
    ensures FlagAfter(lines, i + 1) == NextFlag(FlagAfter(lines, i), lines[i])
    ensures FlagAfter(lines, i) == 0 && Hit(VersionMarker, lines[i]) ==> VersionIndex(lines) == Some(i)
    ensures Configure(lines, username, password)[i] ==
      var flag := FlagAfter(lines, i);
      if flag == 1 && Hit(Setting("username"), lines[i]) then UserSetting(username)
      else if flag == 2 && Hit(Setting("password"), lines[i]) then PasswordSetting(password)
      else lines[i]
  {
  }

  /** `split("\n")[:-1]` of the fetched text. */
  function FetchedLines(text: string): seq<string> {
    var parts := Split(text, '\n');
    parts[..|parts| - 1]
  }

  /**
   * The running script's first line as `readline()` returns it, trailing
   * newline included, kept unchanged only when it starts with "#!".
   */
  function Shebang(firstLine: string): string {
    if |firstLine| >= 2 && firstLine[..2] == "#!" then firstLine else ""
  }

  /**
   * `re.findall(r"\d.\d.\d", line)[0]` on the version line has an answer:
   * the source raises `IndexError` otherwise.
   */
  predicate VersionExtractable(lines: seq<string>) {
    match VersionIndex(lines)
    case None => true
    case Some(v) => Search(lines[v] + "\n", VersionTag).Some?
  }

  /** The leftmost `\d.\d.\d` of a line known to hold one. */
  function ExtractVersion(line: string): (version: string)
    requires Search(line, VersionTag).Some?
    ensures |version| == 5 && IsDigit(version[0]) && IsDigit(version[2]) && IsDigit(version[4])
    ensures exists i: nat | MatchAt(line, i, VersionTag) && (forall j: nat | j < i :: !MatchAt(line, j, VersionTag)) ::
      version == line[i..i + 5]
  {
    var i := Search(line, VersionTag).value;
    assert AtomMatches(VersionTag[0], line[i]) && AtomMatches(VersionTag[2], line[i + 2]) && AtomMatches(VersionTag[4], line[i + 4]);
    line[i..i + 5]
  }

  datatype UpdateOutcome =
    | UpToDate                      // `checkUpdate` returned False
    | VersionUnreadable             // `int()` raised on a version component
    | Replace(written: seq<string>) // returned True; the strings written to the temporary file, in order

  /** What `checkUpdate` decides and writes for the fetched `lines`, stated through the three line indices. */
  function Rewrite(firstLine: string, lines: seq<string>, username: string, password: string, running: string): (o: UpdateOutcome)
    requires VersionExtractable(lines)
    ensures o.UpToDate? <==> VersionIndex(lines).Some? && VersionCmp(ExtractVersion(lines[VersionIndex(lines).value] + "\n"), running) == Some(false)
    ensures o.Replace? <==> VersionIndex(lines).None? || VersionCmp(ExtractVersion(lines[VersionIndex(lines).value] + "\n"), running) == Some(true)
    ensures o.Replace? ==> o.written == [Shebang(firstLine)] + Terminated(Configure(lines, username, password))
  {
    var written := [Shebang(firstLine)] + Terminated(Configure(lines, username, password));
    match VersionIndex(lines)
    case None => Replace(written)
    case Some(v) =>
      match VersionCmp(ExtractVersion(lines[v] + "\n"), running)
      case None => VersionUnreadable
      case Some(newer) => if newer then Replace(written) else UpToDate
  }

  /** `checkUpdate` as a whole: the fetched text is split into lines first. */
  function UpdateSpec(firstLine: string, text: string, username: string, password: string, running: string): UpdateOutcome
    requires VersionExtractable(FetchedLines(text))
  {
    Rewrite(firstLine, FetchedLines(text), username, password, running)
  }

  /** Each line followed by its newline, as the loop writes them. */
  function Terminated(lines: seq<string>): seq<string> {
    seq(|lines|, i requires 0 <= i < |lines| => lines[i] + "\n")
  }

  lemma TerminatedSnoc(lines: seq<string>, i: nat, written: seq<string>, shebang: string)
    requires i < |lines|
    requires written == [shebang] + Terminated(lines[..i])
    ensures written + [lines[i] + "\n"] == [shebang] + Terminated(lines[..i + 1])
  {
    assert lines[..i + 1] == lines[..i] + [lines[i]];
  }

  /**
   * `checkUpdate`, with the fetched text, the running script's first line,
   * the in-memory credentials and `__version__` as inputs; the strings it
   * writes to the temporary file are collected in order.
   */
  method CheckUpdate(firstLine: string, text: string, username: string, password: string, running: string)
    returns (outcome: UpdateOutcome)
    requires VersionExtractable(FetchedLines(text))
    ensures outcome == UpdateSpec(firstLine, text, username, password, running)
  {
    var lines := FetchedLines(text);
    outcome := WriteTemp(firstLine, lines, username, password, running);
  }

  /** The flag has passed a version line whose version is newer than the running one. */
  ghost predicate Newer(lines: seq<string>, running: string)
    requires VersionExtractable(lines)
  {
    VersionIndex(lines).Some? && VersionCmp(ExtractVersion(lines[VersionIndex(lines).value] + "\n"), running) == Some(true)
  }

  /** The `with open(tempFile, "w")` block of `checkUpdate`: the flag loop over the fetched lines. */
  method WriteTemp(firstLine: string, lines: seq<string>, username: string, password: string, running: string)
    returns (outcome: UpdateOutcome)
    requires VersionExtractable(lines)
    ensures outcome == Rewrite(firstLine, lines, username, password, running)
  {
    ghost var target := Configure(lines, username, password);
    var shebang := Shebang(firstLine);
    var written := [shebang];
    var flag := 0;
    var i := 0;
    while i < |lines|
      invariant 0 <= i <= |lines|
      invariant flag == FlagAfter(lines, i)
      invariant flag >= 1 ==> Newer(lines, running)
      invariant written == [shebang] + Terminated(target[..i])
    {
      var stop, line;
      stop, flag, line := CopyLine(firstLine, lines, i, flag, username, password, running);
      if stop.Some? {
        return stop.value;
      }
      TerminatedSnoc(target, i, written, shebang);
      written := written + [line];
      i := i + 1;
    }
    assert target[..i] == target;
    outcome := Replace(written);
  }

  /**
   * One pass of the loop body on `lines[i]` with the flag at `flag`: either
   * `checkUpdate` returns here, or the next flag and the line to write.
   */
  method CopyLine(firstLine: string, lines: seq<string>, i: nat, flag: nat, username: string, password: string, running: string)
    returns (stop: Option<UpdateOutcome>, next: nat, line: string)
    requires VersionExtractable(lines) && i < |lines|
    requires flag == FlagAfter(lines, i) && (flag >= 1 ==> Newer(lines, running))
    ensures stop.Some? ==> stop.value == Rewrite(firstLine, lines, username, password, running) && !stop.value.Replace?
    ensures stop.None? ==> next == FlagAfter(lines, i + 1) && (next >= 1 ==> Newer(lines, running))
    ensures stop.None? ==> line == Configure(lines, username, password)[i] + "\n"
  {
    Advance(lines, i, username, password);
    stop := None;
    next := flag;
    line := lines[i] + "\n";
    if flag == 0 {
      if Hit(VersionMarker, lines[i]) {
        var newVersion := ExtractVersion(line);
        var newer := VersionCmp(newVersion, running);
        if newer.None? {
          return Some(VersionUnreadable), next, line;
        }
        if !newer.value {
          return Some(UpToDate), next, line;
        }
        next := 1;
      }
    } else if flag == 1 {
      if Hit(Setting("username"), lines[i]) {
        line := UserSetting(username) + "\n";
        next := 2;
      }
    } else if flag == 2 {
      if Hit(Setting("password"), lines[i]) {
        line := PasswordSetting(password) + "\n";
        next := 3;
      }
    }
    assert next == NextFlag(flag, lines[i]);
  }
}
