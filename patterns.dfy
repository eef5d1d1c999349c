/**
 * The fixed-length regular expressions the script uses (`njunet.py` and
 * `\d.\d.\d`): a pattern is a sequence of atoms, each matching exactly one
 * character, so `re.search` is the leftmost position where every atom matches.
 */
module Patterns {
  import opened Wrappers

  datatype Atom =
    | Lit(c: char)  // the character itself
    | AnyChar       // `.`: any character but a newline
    | Digit         // `\d`, restricted to ASCII digits

  type Pattern = seq<Atom>

  predicate IsDigit(c: char) {
    '0' <= c <= '9'
  }

  predicate AtomMatches(a: Atom, c: char) {
    match a
    case Lit(l) => c == l
    case AnyChar => c != '\n'
    case Digit => IsDigit(c)
  }

  /** The pattern matches `s` starting at position `i`. */
  predicate MatchAt(s: string, i: nat, p: Pattern) {
    i + |p| <= |s| && forall j | 0 <= j < |p| :: AtomMatches(p[j], s[i + j])
  }

  /** Leftmost match position at or after `from`, as `re.search` finds it. */
  function SearchFrom(s: string, p: Pattern, from: nat): (r: Option<nat>)
    ensures r.Some? ==> from <= r.value && MatchAt(s, r.value, p)
    ensures r.Some? ==> forall i | from <= i < r.value :: !MatchAt(s, i, p)
    ensures r.None? ==> forall i | from <= i :: !MatchAt(s, i, p)
    decreases |s| - from
  {
    if from + |p| > |s| then None
    else if MatchAt(s, from, p) then Some(from)
    else SearchFrom(s, p, from + 1)
  }

  function Search(s: string, p: Pattern): (r: Option<nat>)
    ensures r.Some? ==> MatchAt(s, r.value, p) && forall i | 0 <= i < r.value :: !MatchAt(s, i, p)
    ensures r.None? <==> forall i: nat :: !MatchAt(s, i, p)
  {
    SearchFrom(s, p, 0)
  }

  /** `re.compile(r"njunet.py")`. */
  const OwnScript: Pattern := [Lit('n'), Lit('j'), Lit('u'), Lit('n'), Lit('e'), Lit('t'), AnyChar, Lit('p'), Lit('y')]

  /** `r"\d.\d.\d"`. */
  const VersionTag: Pattern := [Digit, AnyChar, Digit, AnyChar, Digit]
}
