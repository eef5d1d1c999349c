/**
 * `versionCmp(newVersion, version)`: both strings are split on '.', the
 * components are zipped, and the answer is "newer" as soon as one fetched
 * component, read as an integer, exceeds its partner. It is not a
 * lexicographic order.
 */
module Version {
  import opened Wrappers
  import opened Strings
  import opened Patterns

  predicate AllDigits(s: string) {
    forall i | 0 <= i < |s| :: IsDigit(s[i])
  }

  /** Decimal value of a string of ASCII digits. */
  function DigitsValue(s: string): nat
    requires AllDigits(s)
  {
    if |s| == 0 then 0 else DigitsValue(s[..|s| - 1]) * 10 + (s[|s| - 1] as int - '0' as int)
  }

  /** `int(s)` on a version component; `None` stands for the `ValueError` it raises. */
  function ParseInt(s: string): (r: Option<nat>)
    ensures r.Some? <==> |s| > 0 && AllDigits(s)
  {
    if |s| > 0 && AllDigits(s) then Some(DigitsValue(s)) else None
  }

  /** The zip loop: `Some(true)` at the first pair whose fetched component is greater. */
  function ZipNewer(nv: seq<string>, v: seq<string>): (r: Option<bool>)
    ensures r.None? ==> exists i | 0 <= i < |nv| && i < |v| :: ParseInt(nv[i]).None? || ParseInt(v[i]).None?
  {
    if |nv| == 0 || |v| == 0 then Some(false)
    else
      match (ParseInt(nv[0]), ParseInt(v[0]))
      case (Some(x), Some(y)) =>
        if x > y then Some(true)
        else
          var r := ZipNewer(nv[1..], v[1..]);
          assert r.None? ==> exists i | 1 <= i < |nv| && i < |v| :: ParseInt(nv[i]).None? || ParseInt(v[i]).None? by {
            if r.None? {
              var i :| 0 <= i < |nv[1..]| && i < |v[1..]| && (ParseInt(nv[1..][i]).None? || ParseInt(v[1..][i]).None?);
              assert nv[1..][i] == nv[i + 1] && v[1..][i] == v[i + 1];
            }
          }
          r
      case _ => None
  }

  function VersionCmp(newVersion: string, version: string): Option<bool> {
    ZipNewer(Split(newVersion, '.'), Split(version, '.'))
  }

  /** Every component parses; then `Some` of their values. */
  function Components(parts: seq<string>): (r: Option<seq<nat>>)
    ensures r.Some? <==> forall i | 0 <= i < |parts| :: ParseInt(parts[i]).Some?
    ensures r.Some? ==> |r.value| == |parts| && forall i | 0 <= i < |parts| :: ParseInt(parts[i]) == Some(r.value[i])
  {
    if |parts| == 0 then Some([])
    else
      match (ParseInt(parts[0]), Components(parts[1..]))
      case (Some(x), Some(xs)) =>
        assert forall i | 1 <= i < |parts| :: parts[i] == parts[1..][i - 1];
        Some([x] + xs)
      case (None, _) => None
      case (_, None) =>
        assert exists i | 0 <= i < |parts[1..]| :: ParseInt(parts[1..][i]).None?;
        None
  }

  /** Some position of the zip where the first version is greater. */
  predicate AnyGreater(a: seq<nat>, b: seq<nat>) {
    exists i | 0 <= i < |a| && i < |b| :: a[i] > b[i]
  }

  /** On well-formed versions the zip loop decides exactly `AnyGreater`. */
  lemma {:induction false} ZipNewerMeans(nv: seq<string>, v: seq<string>, a: seq<nat>, b: seq<nat>)
    requires Components(nv) == Some(a) && Components(v) == Some(b)
    ensures ZipNewer(nv, v) == Some(AnyGreater(a, b))
    decreases |nv|
  {
    if |nv| > 0 && |v| > 0 {
      assert ParseInt(nv[0]) == Some(a[0]) && ParseInt(v[0]) == Some(b[0]);
      if a[0] <= b[0] {
        ComponentsTail(nv, a);
        ComponentsTail(v, b);
        ZipNewerMeans(nv[1..], v[1..], a[1..], b[1..]);
        AnyGreaterTail(a, b);
      }
    }
  }

  /** `versionCmp` on two well-formed version strings: newer iff some zipped component is greater. */
  lemma VersionCmpMeans(newVersion: string, version: string, a: seq<nat>, b: seq<nat>)
    requires Components(Split(newVersion, '.')) == Some(a) && Components(Split(version, '.')) == Some(b)
    ensures VersionCmp(newVersion, version) == Some(AnyGreater(a, b))
  {
    ZipNewerMeans(Split(newVersion, '.'), Split(version, '.'), a, b);
  }

  /** The components of all but the first part are the tail of the components. */
  lemma ComponentsTail(parts: seq<string>, xs: seq<nat>)
    requires |parts| > 0 && Components(parts) == Some(xs)
    ensures Components(parts[1..]) == Some(xs[1..])
  {
    forall i | 0 <= i < |parts[1..]| ensures ParseInt(parts[1..][i]) == Some(xs[1..][i]) {
      assert parts[1..][i] == parts[i + 1];
    }
    ComponentsUnique(parts[1..], xs[1..]);
  }

  /** When the first position is not greater, `AnyGreater` is decided by the rest. */
  lemma AnyGreaterTail(a: seq<nat>, b: seq<nat>)
    requires |a| > 0 && |b| > 0 && a[0] <= b[0]
    ensures AnyGreater(a, b) == AnyGreater(a[1..], b[1..])
  {
    if AnyGreater(a, b) {
      var i :| 0 <= i < |a| && i < |b| && a[i] > b[i];
      assert i > 0 && a[1..][i - 1] > b[1..][i - 1];
    }
    if AnyGreater(a[1..], b[1..]) {
      var i :| 0 <= i < |a[1..]| && i < |b[1..]| && a[1..][i] > b[1..][i];
      assert a[i + 1] > b[i + 1];
    }
  }

  /** `Components` is determined by the parsed value of each component. */
  lemma ComponentsUnique(parts: seq<string>, xs: seq<nat>)
    requires |xs| == |parts|
    requires forall i | 0 <= i < |parts| :: ParseInt(parts[i]) == Some(xs[i])
    ensures Components(parts) == Some(xs)
  {
    var r := Components(parts);
    assert r.Some?;
    assert r.value == xs;
  }

  /** A well-formed version is never newer than itself. */
  lemma NotNewerThanItself(s: string)
    requires Components(Split(s, '.')).Some?
    ensures VersionCmp(s, s) == Some(false)
  {
    var a := Components(Split(s, '.')).value;
    ZipNewerMeans(Split(s, '.'), Split(s, '.'), a, a);
  }

  /** Components beyond the shorter version are never looked at. */
  lemma {:induction false} ExtraComponentsIgnored(nv: seq<string>, v: seq<string>, extra: seq<string>)
    ensures |nv| >= |v| ==> ZipNewer(nv + extra, v) == ZipNewer(nv, v)
    ensures |v| >= |nv| ==> ZipNewer(nv, v + extra) == ZipNewer(nv, v)
    decreases |nv|
  {
    if |nv| > 0 && |v| > 0 {
      assert (nv + extra)[1..] == nv[1..] + extra;
      assert (v + extra)[1..] == v[1..] + extra;
      ExtraComponentsIgnored(nv[1..], v[1..], extra);
    }
  }

  /** A version of three dot-free components splits into them. */
  lemma SplitThree(a: string, b: string, c: string)
    requires '.' !in a && '.' !in b && '.' !in c
    ensures Split(a + "." + b + "." + c, '.') == [a, b, c]
  {
    assert a + "." + b + "." + c == a + ['.'] + (b + ['.'] + c);
    SplitPeel(a, b + ['.'] + c, '.');
    SplitPeel(b, c, '.');
    SplitNoSep(c, '.');
  }

  /** The zip loop on two three-component versions. */
  lemma ZipThree(a: string, b: string, c: string, x: string, y: string, z: string)
    requires ParseInt(a).Some? && ParseInt(b).Some? && ParseInt(c).Some?
    requires ParseInt(x).Some? && ParseInt(y).Some? && ParseInt(z).Some?
    ensures ZipNewer([a, b, c], [x, y, z]) == Some(
      ParseInt(a).value > ParseInt(x).value || ParseInt(b).value > ParseInt(y).value || ParseInt(c).value > ParseInt(z).value)
  {
    assert [c][1..] == [] && [z][1..] == [];
    assert ZipNewer([c], [z]) == Some(ParseInt(c).value > ParseInt(z).value);
    assert [b, c][1..] == [c] && [y, z][1..] == [z];
    assert ZipNewer([b, c], [y, z]) == Some(ParseInt(b).value > ParseInt(y).value || ParseInt(c).value > ParseInt(z).value);
    assert [a, b, c][1..] == [b, c] && [x, y, z][1..] == [y, z];
  }

  /** Digit strings of the examples. */
  lemma SmallNumbers()
    ensures ParseInt("0") == Some(0) && ParseInt("1") == Some(1) && ParseInt("2") == Some(2)
    ensures ParseInt("5") == Some(5) && ParseInt("9") == Some(9) && ParseInt("10") == Some(10)
  {
    assert "10"[..1] == "1";
  }

  /** Not an order: "0.2.0" and "0.1.9" are each newer than the other. */
  lemma ExampleBothWays()
    ensures VersionCmp("0.2.0", "0.1.9") == Some(true)
    ensures VersionCmp("0.1.9", "0.2.0") == Some(true)
  {
    SplitThree("0", "2", "0");
    SplitThree("0", "1", "9");
    assert "0" + "." + "2" + "." + "0" == "0.2.0";
    assert "0" + "." + "1" + "." + "9" == "0.1.9";
    SmallNumbers();
    ZipThree("0", "2", "0", "0", "1", "9");
    ZipThree("0", "1", "9", "0", "2", "0");
  }

  /** A later component outweighs an earlier smaller one. */
  lemma ExampleLaterComponent()
    ensures VersionCmp("0.0.5", "0.1.0") == Some(true)
  {
    SplitThree("0", "0", "5");
    SplitThree("0", "1", "0");
    assert "0" + "." + "0" + "." + "5" == "0.0.5";
    assert "0" + "." + "1" + "." + "0" == "0.1.0";
    SmallNumbers();
    ZipThree("0", "0", "5", "0", "1", "0");
  }

  /** Not "first differing field wins": 10 > 0 in the third field makes "0.1.10" newer than "0.2.0". */
  lemma ExampleNotFirstDifference()
    ensures VersionCmp("0.1.10", "0.2.0") == Some(true)
  {
    SplitThree("0", "1", "10");
    SplitThree("0", "2", "0");
    assert "0" + "." + "1" + "." + "10" == "0.1.10";
    assert "0" + "." + "2" + "." + "0" == "0.2.0";
    SmallNumbers();
    ZipThree("0", "1", "10", "0", "2", "0");
  }

  lemma ExampleSame()
    ensures VersionCmp("0.1.0", "0.1.0") == Some(false)
  {
    SplitThree("0", "1", "0");
    assert "0" + "." + "1" + "." + "0" == "0.1.0";
    SmallNumbers();
    ZipThree("0", "1", "0", "0", "1", "0");
  }
}
