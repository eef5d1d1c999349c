/**
 * The few Python string operations the script relies on, over `seq<char>`:
 * `sub in s`, `s.split(sep)` for a one-character separator, and the
 * whitespace-splitting `s.split(None, maxsplit)`.
 */
module Strings {

  predicate StartsWith(s: string, prefix: string) {
    |prefix| <= |s| && s[..|prefix|] == prefix
  }

  /** Python's `sub in s`. */
  predicate Contains(s: string, sub: string)
    decreases |s|
  {
    StartsWith(s, sub) || (|s| > 0 && Contains(s[1..], sub))
  }

  /** Joins non-empty `parts` with `sep` between consecutive parts (Python's `sep.join`). */
  function Join(parts: seq<string>, sep: char): (s: string)
    requires |parts| >= 1
    ensures |s| >= |parts| - 1
  {
    if |parts| == 1 then parts[0] else parts[0] + [sep] + Join(parts[1..], sep)
  }

  /** Python's `s.split(sep)`: always at least one part, no part holds `sep`, and joining gives `s` back. */
  function Split(s: string, sep: char): (parts: seq<string>)
    ensures |parts| >= 1
    ensures forall i | 0 <= i < |parts| :: sep !in parts[i]
    ensures Join(parts, sep) == s
  {
    if |s| == 0 then [""]
    else
      var rest := Split(s[1..], sep);
      if s[0] == sep then [""] + rest
      else
        assert Join(rest, sep) == s[1..];
        [[s[0]] + rest[0]] + rest[1..]
  }

  /** Splitting a part that has no separator, followed by the separator, peels that part off. */
  lemma {:induction false} SplitPeel(p: string, rest: string, sep: char)
    requires sep !in p
    ensures Split(p + [sep] + rest, sep) == [p] + Split(rest, sep)
    decreases |p|
  {
    if |p| == 0 {
      assert p + [sep] + rest == [sep] + rest;
    } else {
      assert (p + [sep] + rest)[1..] == p[1..] + [sep] + rest;
      SplitPeel(p[1..], rest, sep);
      assert [p[0]] + p[1..] == p;
    }
  }

  /** The other round trip: splitting a join of separator-free parts gives the parts back. */
  lemma {:induction false} SplitJoin(parts: seq<string>, sep: char)
    requires |parts| >= 1
    requires forall i | 0 <= i < |parts| :: sep !in parts[i]
    ensures Split(Join(parts, sep), sep) == parts
    decreases |parts|
  {
    if |parts| == 1 {
      SplitNoSep(parts[0], sep);
    } else {
      SplitJoin(parts[1..], sep);
      SplitPeel(parts[0], Join(parts[1..], sep), sep);
    }
  }

  /** A string without the separator splits into itself. */
  lemma {:induction false} SplitNoSep(s: string, sep: char)
    requires sep !in s
    ensures Split(s, sep) == [s]
    decreases |s|
  {
    if |s| > 0 {
      SplitNoSep(s[1..], sep);
    }
  }

  /**
   * The characters below U+0100 that Python's `str.split()` treats as
   * whitespace: tab, line feed, vertical tab, form feed, carriage return, the
   * four separators U+001C to U+001F, space, U+0085 and U+00A0.
   */
  predicate IsSpace(c: char) {
    ('\t' <= c <= '\r') || ('\U{1C}' <= c <= '\U{1F}') || c == ' ' || c == '\U{85}' || c == '\U{A0}'
  }

  predicate AllSpace(s: string) {
    forall i | 0 <= i < |s| :: IsSpace(s[i])
  }

  /** `s` with its leading whitespace removed. */
  function LStrip(s: string): (t: string)
    ensures |t| <= |s|
    ensures t == [] || !IsSpace(t[0])
    ensures t == [] <==> AllSpace(s)
  {
    if |s| > 0 && IsSpace(s[0]) then
      var t := LStrip(s[1..]);
      assert AllSpace(s[1..]) ==> AllSpace(s) by {
        if AllSpace(s[1..]) {
          forall i | 0 <= i < |s| ensures IsSpace(s[i]) { if i > 0 { assert s[i] == s[1..][i - 1]; } }
        }
      }
      t
    else s
  }

  /** Length of the leading run of non-whitespace characters. */
  function TokenLength(s: string): (k: nat)
    ensures k <= |s|
    ensures forall i | 0 <= i < k :: !IsSpace(s[i])
    ensures k == |s| || IsSpace(s[k])
  {
    if |s| > 0 && !IsSpace(s[0]) then 1 + TokenLength(s[1..]) else 0
  }

  /** A field produced by a whitespace split: non-empty and not starting with whitespace. */
  predicate IsField(w: string) {
    |w| > 0 && !IsSpace(w[0])
  }

  /** A string with no whitespace at all. */
  predicate NoSpace(w: string) {
    forall j | 0 <= j < |w| :: !IsSpace(w[j])
  }

  /**
   * Python's `s.split(None, maxsplit)`; a negative `maxsplit` means no limit.
   * Once `maxsplit` splits are done the rest, stripped of leading whitespace
   * only, is the last field.
   */
  function SplitWs(s: string, maxsplit: int): (fields: seq<string>)
    decreases |s|
  {
    var t := LStrip(s);
    if t == [] then []
    else if maxsplit == 0 then [t]
    else
      var k := TokenLength(t);
      [t[..k]] + SplitWs(t[k..], if maxsplit < 0 then maxsplit else maxsplit - 1)
  }

  /**
   * What the whitespace split promises: every field is non-empty and starts
   * with a non-blank, there are no fields exactly when `s` is blank, at most
   * `maxsplit + 1` fields when limited, and no blank inside any field when not.
   */
  lemma {:induction false} SplitWsFields(s: string, maxsplit: int)
    ensures forall i | 0 <= i < |SplitWs(s, maxsplit)| :: IsField(SplitWs(s, maxsplit)[i])
    ensures SplitWs(s, maxsplit) == [] <==> AllSpace(s)
    ensures maxsplit >= 0 ==> |SplitWs(s, maxsplit)| <= maxsplit + 1
    ensures maxsplit < 0 ==> forall i | 0 <= i < |SplitWs(s, maxsplit)| :: NoSpace(SplitWs(s, maxsplit)[i])
    decreases |s|
  {
    var t := LStrip(s);
    if t != [] && maxsplit != 0 {
      var k := TokenLength(t);
      var m := if maxsplit < 0 then maxsplit else maxsplit - 1;
      SplitWsFields(t[k..], m);
      var fields := SplitWs(s, maxsplit);
      assert fields == [t[..k]] + SplitWs(t[k..], m);
      assert IsField(t[..k]) && NoSpace(t[..k]);
      forall i | 0 <= i < |fields| ensures IsField(fields[i]) && (maxsplit < 0 ==> NoSpace(fields[i])) {
        if i > 0 { assert fields[i] == SplitWs(t[k..], m)[i - 1]; }
      }
    }
  }

  /** `u` is what is left of `s` after dropping a prefix. */
  predicate IsSuffix(u: string, s: string) {
    |u| <= |s| && u == s[|s| - |u|..]
  }

  lemma SuffixTrans(u: string, v: string, s: string)
    requires IsSuffix(u, v) && IsSuffix(v, s)
    ensures IsSuffix(u, s)
  {
    assert s[|s| - |v|..][|v| - |u|..] == s[|s| - |u|..];
  }

  /** `LStrip` removes a prefix: its result is a suffix of `s`. */
  lemma {:induction false} LStripSuffix(s: string)
    ensures IsSuffix(LStrip(s), s)
    decreases |s|
  {
    if |s| > 0 && IsSpace(s[0]) {
      LStripSuffix(s[1..]);
      SuffixTrans(LStrip(s[1..]), s[1..], s);
    }
  }

  /** The first word of `s`: its first run of non-whitespace, empty when `s` is blank. */
  function FirstWord(s: string): (w: string)
    ensures NoSpace(w)
    ensures w == "" <==> AllSpace(s)
  {
    var t := LStrip(s);
    t[..TokenLength(t)]
  }

  /** The first field is the first word of `s`, or with no splits left all of `s` after its leading whitespace. */
  lemma SplitWsHead(s: string, maxsplit: int)
    requires !AllSpace(s)
    ensures SplitWs(s, maxsplit)[0] == if maxsplit == 0 then LStrip(s) else FirstWord(s)
  {
  }

  /**
   * When the limit is reached the last field is the rest of the string, with
   * its trailing whitespace kept: `split(None, n)` never cuts the remainder.
   */
  lemma {:induction false} SplitWsRemainder(s: string, maxsplit: int)
    requires maxsplit >= 0 && |SplitWs(s, maxsplit)| == maxsplit + 1
    ensures IsSuffix(SplitWs(s, maxsplit)[maxsplit], s)
    decreases |s|
  {
    var t := LStrip(s);
    LStripSuffix(s);
    if maxsplit > 0 {
      var k := TokenLength(t);
      var rest := SplitWs(t[k..], maxsplit - 1);
      assert SplitWs(s, maxsplit) == [t[..k]] + rest;
      SplitWsRemainder(t[k..], maxsplit - 1);
      assert IsSuffix(t[k..], t);
      SuffixTrans(rest[maxsplit - 1], t[k..], t);
      SuffixTrans(rest[maxsplit - 1], t, s);
    }
  }

  /** All the fields, one after the other. */
  function Concat(ws: seq<string>): string {
    if ws == [] then "" else ws[0] + Concat(ws[1..])
  }

  /** The non-whitespace characters of `s`, in order. */
  function Squeeze(s: string): string {
    if s == "" then "" else (if IsSpace(s[0]) then "" else [s[0]]) + Squeeze(s[1..])
  }

  lemma {:induction false} SqueezeAppend(a: string, b: string)
    ensures Squeeze(a + b) == Squeeze(a) + Squeeze(b)
    decreases |a|
  {
    if a != "" {
      var h := if IsSpace(a[0]) then "" else [a[0]];
      assert (a + b)[0] == a[0] && (a + b)[1..] == a[1..] + b;
      SqueezeAppend(a[1..], b);
      assert Squeeze(a) == h + Squeeze(a[1..]);
      assert a + b != "" && Squeeze(a + b) == h + Squeeze((a + b)[1..]);
      assert Squeeze(a + b) == h + (Squeeze(a[1..]) + Squeeze(b));
      assert h + (Squeeze(a[1..]) + Squeeze(b)) == (h + Squeeze(a[1..])) + Squeeze(b);
    } else {
      assert a + b == b;
    }
  }

  lemma {:induction false} SqueezeNoSpace(w: string)
    requires NoSpace(w)
    ensures Squeeze(w) == w
    decreases |w|
  {
    if w != "" {
      SqueezeNoSpace(w[1..]);
    }
  }

  lemma {:induction false} SqueezeLStrip(s: string)
    ensures Squeeze(LStrip(s)) == Squeeze(s)
    decreases |s|
  {
    if |s| > 0 && IsSpace(s[0]) {
      SqueezeLStrip(s[1..]);
    }
  }

  /**
   * Without a limit no character is lost or added: the fields, put end to
   * end, are exactly the non-whitespace characters of `s`.
   */
  lemma {:induction false} SplitWsSqueeze(s: string)
    ensures Concat(SplitWs(s, -1)) == Squeeze(s)
    decreases |s|
  {
    var t := LStrip(s);
    SqueezeLStrip(s);
    if t == [] {
    } else {
      var k := TokenLength(t);
      var fields := SplitWs(s, -1);
      assert fields == [t[..k]] + SplitWs(t[k..], -1);
      assert fields[1..] == SplitWs(t[k..], -1);
      SplitWsSqueeze(t[k..]);
      assert t == t[..k] + t[k..];
      SqueezeAppend(t[..k], t[k..]);
      SqueezeNoSpace(t[..k]);
    }
  }

  /** Every negative `maxsplit` means no limit. */
  lemma {:induction false} SplitWsNoLimit(s: string, maxsplit: int)
    requires maxsplit < 0
    ensures SplitWs(s, maxsplit) == SplitWs(s, -1)
    decreases |s|
  {
    var t := LStrip(s);
    if t != [] {
      SplitWsNoLimit(t[TokenLength(t)..], maxsplit);
    }
  }

  /**
   * A limit that is not reached changes nothing: with fewer than
   * `maxsplit + 1` fields the limited split is the unlimited one.
   */
  lemma {:induction false} SplitWsUnderLimit(s: string, maxsplit: int)
    requires maxsplit >= 0 && |SplitWs(s, maxsplit)| <= maxsplit
    ensures SplitWs(s, maxsplit) == SplitWs(s, -1)
    decreases |s|
  {
    var t := LStrip(s);
    if t != [] {
      var k := TokenLength(t);
      SplitWsUnderLimit(t[k..], maxsplit - 1);
    }
  }

  /**
   * A limit that is reached keeps the first `maxsplit` words of the
   * unlimited split as they are, and the last field holds all the remaining
   * words, with the whitespace between them: its non-whitespace characters
   * are those words put end to end.
   */
  lemma {:induction false} SplitWsLimited(s: string, maxsplit: int)
    requires maxsplit >= 0 && |SplitWs(s, maxsplit)| == maxsplit + 1
    ensures |SplitWs(s, -1)| >= maxsplit + 1
    ensures SplitWs(s, maxsplit)[..maxsplit] == SplitWs(s, -1)[..maxsplit]
    ensures Squeeze(SplitWs(s, maxsplit)[maxsplit]) == Concat(SplitWs(s, -1)[maxsplit..])
    decreases |s|
  {
    var t := LStrip(s);
    if maxsplit == 0 {
      SplitWsSqueeze(s);
      SqueezeLStrip(s);
      SplitWsFields(s, -1);
      assert SplitWs(s, -1)[0..] == SplitWs(s, -1);
    } else {
      var k := TokenLength(t);
      var lim, all := SplitWs(t[k..], maxsplit - 1), SplitWs(t[k..], -1);
      assert SplitWs(s, maxsplit) == [t[..k]] + lim;
      assert SplitWs(s, -1) == [t[..k]] + all;
      SplitWsLimited(t[k..], maxsplit - 1);
      assert SplitWs(s, maxsplit)[..maxsplit] == [t[..k]] + lim[..maxsplit - 1];
      assert SplitWs(s, -1)[..maxsplit] == [t[..k]] + all[..maxsplit - 1];
      assert SplitWs(s, -1)[maxsplit..] == all[maxsplit - 1..];
    }
  }
}
