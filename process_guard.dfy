/**
 * `checkProcess`: before logging out, list the caller's own processes that
 * losing the network might break. The rows of `ps aux` owned by the login
 * name are kept unless their command is an editor, a shell, ssh, ps, grep,
 * or this script itself; the survivors are tallied by their full command
 * field, and there is a conflict exactly when the tally is non-empty.
 */
module ProcessGuard {
  import opened Wrappers
  import opened Strings
  import opened Patterns

  /** `ignoringCmd`: command names that never count. */
  const IgnoringCmd: set<string> := {"ssh", "sshd:", "vim", "emacs", "ps", "grep"}

  /** `ignoringSess` = `zsh|/sftp|/bin/bash`: a command containing any of these is a session. */
  const IgnoringSess: seq<string> := ["zsh", "/sftp", "/bin/bash"]

  predicate IsSession(command: string) {
    exists k | 0 <= k < |IgnoringSess| :: Contains(command, IgnoringSess[k])
  }

  /** `ignoringObj.search(obj)`: the argument names this script. */
  predicate IsOwnScript(obj: string) {
    Search(obj, OwnScript).Some?
  }

  /** `len(processes[0].split()) - 1`: the number of splits that isolates the last column. */
  function FieldCount(header: string): int {
    |SplitWs(header, -1)| - 1
  }

  /** A row with at least one field; the source indexes `record[0]` and fails on any other. */
  predicate Parsable(row: string) {
    !AllSpace(row)
  }

  /** The parts of a row `checkProcess` looks at. */
  datatype Record = Record(owner: string, command: string, obj: string, field: string)

  /**
   * `row.split(None, nfields)`: the first field is the owner, the last one
   * the command column (command and arguments), whose first two words are
   * `command` and `obj` (`obj` empty when there is one word only).
   */
  function ParseRow(row: string, nfields: int): (r: Record)
    requires Parsable(row)
    ensures IsField(r.command) && NoSpace(r.command) && NoSpace(r.obj)
  {
    var record := SplitWs(row, nfields);
    SplitWsFields(row, nfields);
    var field := record[|record| - 1];
    var line := SplitWs(field, -1);
    SplitWsFields(field, -1);
    Record(record[0], line[0], if |line| >= 2 then line[1] else "", field)
  }

  /** The owner is the row's first word (the whole row, stripped, when no split is made). */
  lemma ParseRowOwner(row: string, nfields: int)
    requires Parsable(row)
    ensures ParseRow(row, nfields).owner == if nfields == 0 then LStrip(row) else FirstWord(row)
  {
    SplitWsHead(row, nfields);
  }

  /**
   * The command column: once the `nfields` splits are made, everything after
   * them, spaces kept; on a row with fewer columns, its last word.
   */
  lemma ParseRowField(row: string, nfields: int)
    requires Parsable(row)
    ensures var field := ParseRow(row, nfields).field;
      && (nfields >= 0 && |SplitWs(row, nfields)| == nfields + 1 ==>
           IsSuffix(field, row) && |SplitWs(row, -1)| > nfields &&
           Squeeze(field) == Concat(SplitWs(row, -1)[nfields..]))
      && ((nfields < 0 || |SplitWs(row, nfields)| <= nfields) ==>
           field == SplitWs(row, -1)[|SplitWs(row, -1)| - 1])
  {
    FieldMeans(row, nfields);
  }

  /** The command and its argument are the first two words of the command column. */
  lemma ParseRowWords(row: string, nfields: int)
    requires Parsable(row)
    ensures var r := ParseRow(row, nfields);
      IsField(r.field) && r.command == FirstWord(r.field) && r.obj == FirstWord(r.field[|r.command|..])
  {
    var record := SplitWs(row, nfields);
    SplitWsFields(row, nfields);
    WordsMeans(record[|record| - 1]);
  }

  /** The first two words of a field, as its unlimited split gives them. */
  lemma WordsMeans(field: string)
    requires IsField(field)
    ensures var line := SplitWs(field, -1);
      |line| >= 1 && line[0] == FirstWord(field) &&
      (if |line| >= 2 then line[1] else "") == FirstWord(field[|line[0]|..])
  {
    SplitWsHead(field, -1);
    var k := TokenLength(field);
    assert SplitWs(field, -1) == [field[..k]] + SplitWs(field[k..], -1);
    if !AllSpace(field[k..]) {
      SplitWsHead(field[k..], -1);
    }
  }

  /** Where the last field of `row.split(None, nfields)` comes from. */
  lemma FieldMeans(row: string, nfields: int)
    requires Parsable(row)
    ensures var record := SplitWs(row, nfields);
      |record| >= 1 &&
      (nfields >= 0 && |record| == nfields + 1 ==>
        IsSuffix(record[nfields], row) && |SplitWs(row, -1)| > nfields &&
        Squeeze(record[nfields]) == Concat(SplitWs(row, -1)[nfields..])) &&
      ((nfields < 0 || |record| <= nfields) ==> record == SplitWs(row, -1))
  {
    SplitWsFields(row, nfields);
    if nfields >= 0 && |SplitWs(row, nfields)| == nfields + 1 {
      SplitWsRemainder(row, nfields);
      SplitWsLimited(row, nfields);
    }
    if 0 <= nfields && |SplitWs(row, nfields)| <= nfields {
      SplitWsUnderLimit(row, nfields);
    }
    if nfields < 0 {
      SplitWsNoLimit(row, nfields);
    }
  }

  /** The three filters of the loop. */
  predicate Ignored(command: string, obj: string) {
    command in IgnoringCmd || IsSession(command) || IsOwnScript(obj)
  }

  /** The row is counted: owned by the login name and not ignored. */
  predicate Tallied(row: string, loginName: string, nfields: int)
    requires Parsable(row)
  {
    var r := ParseRow(row, nfields);
    r.owner == loginName && !Ignored(r.command, r.obj)
  }

  predicate AllParsable(rows: seq<string>) {
    forall i | 0 <= i < |rows| :: Parsable(rows[i])
  }

  /** The key a row is tallied under, if it is tallied. */
  function KeyOf(row: string, loginName: string, nfields: int): Option<string>
    requires Parsable(row)
  {
    if Tallied(row, loginName, nfields) then Some(ParseRow(row, nfields).field) else None
  }

  /** The keys of all rows, in order. */
  function RowKeys(rows: seq<string>, loginName: string, nfields: int): seq<Option<string>>
    requires AllParsable(rows)
  {
    seq(|rows|, i requires 0 <= i < |rows| => KeyOf(rows[i], loginName, nfields))
  }

  /** How many entries of `keys` are `key`: the value a `Counter` holds for it. */
  function Count(keys: seq<Option<string>>, key: string): nat {
    if keys == [] then 0
    else Count(keys[..|keys| - 1], key) + if keys[|keys| - 1] == Some(key) then 1 else 0
  }

  /** `tally` is the `Counter` of the present keys in `keys`. */
  ghost predicate Tallies(tally: map<string, nat>, keys: seq<Option<string>>) {
    && (forall key :: key in tally <==> Count(keys, key) > 0)
    && (forall key | key in tally :: tally[key] == Count(keys, key))
  }

  /** `recDict[key] += 1` for a tallied row; nothing for any other. */
  function Bump(tally: map<string, nat>, k: Option<string>): map<string, nat> {
    match k
    case None => tally
    case Some(key) => tally[key := (if key in tally then tally[key] else 0) + 1]
  }

  lemma {:induction false} BumpCounts(tally: map<string, nat>, keys: seq<Option<string>>, x: Option<string>)
    requires Tallies(tally, keys)
    ensures Tallies(Bump(tally, x), keys + [x])
  {
    CountSnoc(keys, x);
  }

  /** A counter is non-empty exactly when some key was counted. */
  lemma TallyNonEmpty(tally: map<string, nat>, keys: seq<Option<string>>)
    requires Tallies(tally, keys)
    ensures |tally| != 0 <==> exists i | 0 <= i < |keys| :: keys[i].Some?
  {
    if i :| 0 <= i < |keys| && keys[i].Some? {
      CountPositive(keys, keys[i].value);
      assert keys[i].value in tally;
    }
    if |tally| != 0 {
      var key :| key in tally;
      CountPositive(keys, key);
    }
  }

  /** A snapshot has conflicts exactly when some row has a key. */
  lemma ConflictsIffKeys(loginName: string, processes: seq<string>)
    requires |processes| >= 1 && AllParsable(processes[1..])
    ensures var keys := RowKeys(processes[1..], loginName, FieldCount(processes[0]));
      HasConflicts(loginName, processes) <==> exists i | 0 <= i < |keys| :: keys[i].Some?
  {
    var keys := RowKeys(processes[1..], loginName, FieldCount(processes[0]));
    if i :| 1 <= i < |processes| && Tallied(processes[i], loginName, FieldCount(processes[0])) {
      RowKeyOfTallied(loginName, processes, i);
      assert keys[i - 1].Some?;
    }
    if i :| 0 <= i < |keys| && keys[i].Some? {
      TalliedOfRowKey(loginName, processes, i);
    }
  }

  /** A tallied row after the header has a key. */
  lemma RowKeyOfTallied(loginName: string, processes: seq<string>, i: nat)
    requires |processes| >= 1 && AllParsable(processes[1..])
    requires 1 <= i < |processes| && Tallied(processes[i], loginName, FieldCount(processes[0]))
    ensures var keys := RowKeys(processes[1..], loginName, FieldCount(processes[0]));
      |keys| == |processes| - 1 && keys[i - 1].Some?
  {
    var rows, nfields := processes[1..], FieldCount(processes[0]);
    assert rows[i - 1] == processes[i];
    RowKeysAt(rows, loginName, nfields, i - 1);
  }

  /** A row with a key is a tallied row after the header. */
  lemma TalliedOfRowKey(loginName: string, processes: seq<string>, i: nat)
    requires |processes| >= 1 && AllParsable(processes[1..])
    requires var keys := RowKeys(processes[1..], loginName, FieldCount(processes[0]));
      i < |keys| && keys[i].Some?
    ensures Tallied(processes[i + 1], loginName, FieldCount(processes[0]))
  {
    var rows, nfields := processes[1..], FieldCount(processes[0]);
    assert rows[i] == processes[i + 1];
    RowKeysAt(rows, loginName, nfields, i);
  }

  lemma RowKeysAt(rows: seq<string>, loginName: string, nfields: int, i: nat)
    requires AllParsable(rows) && i < |rows|
    ensures |RowKeys(rows, loginName, nfields)| == |rows|
    ensures RowKeys(rows, loginName, nfields)[i] == KeyOf(rows[i], loginName, nfields)
  {
  }

  lemma CountSnoc(keys: seq<Option<string>>, x: Option<string>)
    ensures forall key :: Count(keys + [x], key) == Count(keys, key) + if x == Some(key) then 1 else 0
  {
    assert (keys + [x])[..|keys|] == keys;
  }

  /** A key has a positive count exactly when it occurs. */
  lemma {:induction false} CountPositive(keys: seq<Option<string>>, key: string)
    ensures Count(keys, key) > 0 <==> Some(key) in keys
    decreases |keys|
  {
    if keys != [] {
      var init := keys[..|keys| - 1];
      CountPositive(init, key);
      assert keys == init + [keys[|keys| - 1]];
    }
  }

  /**
   * Every counted key comes from a row owned by the login name whose command
   * passes all three filters and whose command field is that key.
   */
  lemma TalliedKeyWitness(rows: seq<string>, loginName: string, nfields: int, key: string)
    requires AllParsable(rows)
    requires Count(RowKeys(rows, loginName, nfields), key) > 0
    ensures exists i | 0 <= i < |rows| ::
      var r := ParseRow(rows[i], nfields);
      r.field == key && r.owner == loginName && r.command !in IgnoringCmd && !IsSession(r.command) && !IsOwnScript(r.obj)
  {
    var keys := RowKeys(rows, loginName, nfields);
    CountPositive(keys, key);
    var i :| 0 <= i < |keys| && keys[i] == Some(key);
    assert KeyOf(rows[i], loginName, nfields) == Some(key);
  }

  /** Some row of the snapshot (header excluded) is tallied. */
  predicate HasConflicts(loginName: string, processes: seq<string>)
    requires |processes| >= 1 && AllParsable(processes[1..])
  {
    exists i | 1 <= i < |processes| :: Tallied(processes[i], loginName, FieldCount(processes[0]))
  }

  /** One pass of the loop body: `recDict[record[-1]] += 1` when the row is tallied. */
  method CountRow(tally: map<string, nat>, row: string, loginName: string, nfields: int) returns (next: map<string, nat>)
    requires Parsable(row)
    ensures next == Bump(tally, KeyOf(row, loginName, nfields))
  {
    next := tally;
    var record := ParseRow(row, nfields);
    if record.owner == loginName {
      if record.command !in IgnoringCmd {
        if !IsSession(record.command) && !IsOwnScript(record.obj) {
          var key := record.field;
          next := next[key := (if key in next then next[key] else 0) + 1];
        }
      }
    }
  }

  /**
   * `checkProcess` on the lines of `ps aux` (header first), with the login
   * name given. Returns whether there are conflicts and the tally it prints:
   * each command field of a tallied row, with the number of tallied rows
   * that have it.
   */
  method CheckProcess(loginName: string, processes: seq<string>) returns (conflict: bool, tally: map<string, nat>)
    requires |processes| >= 1 && AllParsable(processes[1..])
    ensures forall key :: key in tally <==> Count(RowKeys(processes[1..], loginName, FieldCount(processes[0])), key) > 0
    ensures forall key | key in tally :: tally[key] == Count(RowKeys(processes[1..], loginName, FieldCount(processes[0])), key)
    ensures conflict <==> HasConflicts(loginName, processes)
  {
    var nfields := FieldCount(processes[0]);
    tally := TallyRows(processes[1..], loginName, nfields);
    conflict := |tally| != 0;
    TallyNonEmpty(tally, RowKeys(processes[1..], loginName, nfields));
    ConflictsIffKeys(loginName, processes);
  }

  /** The loop `for row in processes[1:]`, building the `Counter`. */
  method TallyRows(rows: seq<string>, loginName: string, nfields: int) returns (tally: map<string, nat>)
    requires AllParsable(rows)
    ensures Tallies(tally, RowKeys(rows, loginName, nfields))
  {
    ghost var keys := RowKeys(rows, loginName, nfields);
    tally := map[];
    for j := 0 to |rows|
      invariant Tallies(tally, keys[..j])
    {
      ghost var before := tally;
      tally := CountRow(tally, rows[j], loginName, nfields);
      BumpCounts(before, keys[..j], keys[j]);
      assert keys[..j + 1] == keys[..j] + [keys[j]];
    }
    assert keys[..|rows|] == keys;
  }
}
