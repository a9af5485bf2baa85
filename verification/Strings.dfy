/** The .NET string operations the relay relies on, over `seq<char>`.
    Comparisons are ordinal and case folding is ASCII-only. */
module Strings {

  /** `s.StartsWith(prefix)`, compared ordinally; `StartsWithIsConcat`
      gives its meaning. */
  predicate StartsWith(s: string, prefix: string)
    ensures StartsWith(s, prefix) ==> |prefix| <= |s|
  {
    |prefix| <= |s| && s[..|prefix|] == prefix
  }

  /** `s` starts with `prefix` exactly when it is `prefix` followed by some
      text. */
  lemma StartsWithIsConcat(s: string, prefix: string)
    ensures StartsWith(s, prefix) <==> exists rest :: s == prefix + rest
  {
    if StartsWith(s, prefix) {
      assert s == prefix + s[|prefix|..];
    }
    if exists rest :: s == prefix + rest {
      var rest :| s == prefix + rest;
      assert s[..|prefix|] == prefix;
    }
  }

  /** `s.EndsWith(suffix)`, compared ordinally: `s` is some text followed
      by `suffix`. */
  predicate EndsWith(s: string, suffix: string)
    ensures EndsWith(s, suffix) <==> |suffix| <= |s| && s == s[..|s| - |suffix|] + suffix
  {
    |suffix| <= |s| && s[|s| - |suffix|..] == suffix
  }

  /** `pat` occurs in `s` starting at index `j`. */
  predicate OccursAt(s: string, pat: string, j: int) {
    0 <= j && j + |pat| <= |s| && s[j..j + |pat|] == pat
  }

  /** `s.Replace(pat, rep)`: every non-overlapping occurrence of `pat`,
      found scanning from the left, is replaced by `rep`. */
  function Replace(s: string, pat: string, rep: string): (r: string)
    requires pat != ""
    ensures rep == pat ==> r == s
    ensures |rep| <= |pat| ==> |r| <= |s|
    ensures |rep| >= |pat| ==> |r| >= |s|
    decreases |s|
  {
    if |s| < |pat| then s
    else if s[..|pat|] == pat then rep + Replace(s[|pat|..], pat, rep)
    else [s[0]] + Replace(s[1..], pat, rep)
  }

  lemma {:induction false} ReplaceWithoutOccurrence(s: string, pat: string, rep: string)
    requires pat != ""
    requires forall j :: !OccursAt(s, pat, j)
    ensures Replace(s, pat, rep) == s
    decreases |s|
  {
    if |s| < |pat| {
    } else {
      assert !OccursAt(s, pat, 0);
      assert s[..|pat|] != pat;
      forall j ensures !OccursAt(s[1..], pat, j) {
        if 0 <= j && j + |pat| <= |s| - 1 {
          assert s[1..][j..j + |pat|] == s[j + 1..j + 1 + |pat|];
          assert !OccursAt(s, pat, j + 1);
        }
      }
      ReplaceWithoutOccurrence(s[1..], pat, rep);
      assert [s[0]] + s[1..] == s;
    }
  }

  /** `s.Replace(c.ToString(), "")`: every `c` removed, everything else kept in order. */
  function Remove(s: string, c: char): (r: string)
    ensures forall x :: x in r <==> x in s && x != c
    ensures |r| <= |s|
    decreases |s|
  {
    if s == [] then []
    else if s[0] == c then Remove(s[1..], c)
    else [s[0]] + Remove(s[1..], c)
  }

  /** Removing one character is the single-character case of `Replace`. */
  lemma {:induction false} RemoveIsReplace(s: string, c: char)
    ensures Remove(s, c) == Replace(s, [c], "")
    decreases |s|
  {
    if s != [] {
      RemoveIsReplace(s[1..], c);
    }
  }

  lemma {:induction false} RemoveAbsent(s: string, c: char)
    requires c !in s
    ensures Remove(s, c) == s
    decreases |s|
  {
    if s != [] {
      RemoveAbsent(s[1..], c);
      assert [s[0]] + s[1..] == s;
    }
  }

  /** ASCII approximation of `char.ToLower`. */
  function LowerChar(c: char): char {
    if 'A' <= c <= 'Z' then (c as int + 32) as char else c
  }

  /** ASCII approximation of `char.ToUpper`. */
  function UpperChar(c: char): char {
    if 'a' <= c <= 'z' then (c as int - 32) as char else c
  }

  /** `s.ToLower()`: same length, each character folded. */
  function ToLower(s: string): (r: string)
    ensures |r| == |s|
    ensures forall i :: 0 <= i < |s| ==> r[i] == LowerChar(s[i])
  {
    seq(|s|, i requires 0 <= i < |s| => LowerChar(s[i]))
  }

  /** Lower-casing keeps a suffix a suffix. */
  lemma ToLowerKeepsSuffix(s: string, suffix: string)
    ensures EndsWith(s, suffix) ==> EndsWith(ToLower(s), ToLower(suffix))
  {
    if EndsWith(s, suffix) {
      var n := |s| - |suffix|;
      assert ToLower(s)[n..] == ToLower(suffix) by {
        forall i | 0 <= i < |suffix|
          ensures ToLower(s)[n..][i] == ToLower(suffix)[i]
        {
          assert s[n + i] == s[n..][i];
        }
      }
    }
  }

  /** `s.ToUpper()`: same length, each character folded. */
  function ToUpper(s: string): (r: string)
    ensures |r| == |s|
    ensures forall i :: 0 <= i < |s| ==> r[i] == UpperChar(s[i])
  {
    seq(|s|, i requires 0 <= i < |s| => UpperChar(s[i]))
  }

  /** `string.Compare(a, b, true) == 0`: the same length, and the same
      character at each position once both are folded. */
  predicate EqualsIgnoreCase(a: string, b: string)
    ensures EqualsIgnoreCase(a, b) <==>
      |a| == |b| && forall i :: 0 <= i < |a| ==> UpperChar(a[i]) == UpperChar(b[i])
  {
    ToUpper(a) == ToUpper(b)
  }

  /** Index into `seps` of the first separator (in array order) that `s` starts
      with, or `|seps|` when none does. */
  function SeparatorAt(s: string, seps: seq<string>): (k: nat)
    ensures k <= |seps|
    ensures k < |seps| ==> StartsWith(s, seps[k])
    ensures forall j :: 0 <= j < k ==> !StartsWith(s, seps[j])
    decreases |seps|
  {
    if seps == [] then 0
    else if StartsWith(s, seps[0]) then 0
    else 1 + SeparatorAt(s, seps[1..])
  }

  predicate NonEmptySeparators(seps: seq<string>) {
    forall k :: 0 <= k < |seps| ==> seps[k] != ""
  }

  /** The pieces of `s.Split(seps, StringSplitOptions.None)`: scanning from the
      left, a separator found at the current position ends the current piece. */
  function Pieces(s: string, seps: seq<string>): (r: seq<string>)
    requires NonEmptySeparators(seps)
    ensures |r| >= 1
    decreases |s|
  {
    if s == [] then [""]
    else
      var k := SeparatorAt(s, seps);
      if k < |seps| then [""] + Pieces(s[|seps[k]|..], seps)
      else
        var rest := Pieces(s[1..], seps);
        [[s[0]] + rest[0]] + rest[1..]
  }

  /** The separators the scan of `Pieces` cuts at, in order. */
  function Cuts(s: string, seps: seq<string>): (r: seq<string>)
    requires NonEmptySeparators(seps)
    ensures forall c :: c in r ==> c in seps
    decreases |s|
  {
    if s == [] then []
    else
      var k := SeparatorAt(s, seps);
      if k < |seps| then [seps[k]] + Cuts(s[|seps[k]|..], seps)
      else Cuts(s[1..], seps)
  }

  /** The pieces put back together, each cut separator between two of them. */
  function Rejoin(pieces: seq<string>, cuts: seq<string>): string
    requires |pieces| == |cuts| + 1
    decreases |cuts|
  {
    if cuts == [] then pieces[0]
    else pieces[0] + cuts[0] + Rejoin(pieces[1..], cuts[1..])
  }

  lemma RejoinPrefixed(x: string, pieces: seq<string>, cuts: seq<string>)
    requires |pieces| == |cuts| + 1
    ensures Rejoin([x + pieces[0]] + pieces[1..], cuts) == x + Rejoin(pieces, cuts)
  {
    var q := [x + pieces[0]] + pieces[1..];
    assert q[0] == x + pieces[0] && q[1..] == pieces[1..];
  }

  /** Splitting loses nothing: the pieces, with the separators that were cut
      put back between them, are the input. */
  lemma {:induction false} PiecesRebuild(s: string, seps: seq<string>)
    requires NonEmptySeparators(seps)
    ensures |Pieces(s, seps)| == |Cuts(s, seps)| + 1
    ensures Rejoin(Pieces(s, seps), Cuts(s, seps)) == s
    decreases |s|
  {
    if s != [] {
      var k := SeparatorAt(s, seps);
      if k < |seps| {
        var t := s[|seps[k]|..];
        PiecesRebuild(t, seps);
        var ps := [""] + Pieces(t, seps);
        var cs := [seps[k]] + Cuts(t, seps);
        assert ps[1..] == Pieces(t, seps) && cs[1..] == Cuts(t, seps);
        assert Rejoin(ps, cs) == "" + seps[k] + Rejoin(Pieces(t, seps), Cuts(t, seps));
        assert s == s[..|seps[k]|] + t;
      } else {
        PiecesRebuild(s[1..], seps);
        RejoinPrefixed([s[0]], Pieces(s[1..], seps), Cuts(s[1..], seps));
        assert s == [s[0]] + s[1..];
      }
    }
  }

  /** `StringSplitOptions.RemoveEmptyEntries` */
  function NonEmpty(xs: seq<string>): (r: seq<string>)
    ensures forall x :: x in r <==> x in xs && x != ""
    ensures |r| <= |xs|
  {
    if xs == [] then []
    else if xs[0] == "" then NonEmpty(xs[1..])
    else [xs[0]] + NonEmpty(xs[1..])
  }

  /** A single entry is kept exactly when it is not empty. */
  lemma NonEmptySingleton(x: string)
    ensures NonEmpty([x]) == if x == "" then [] else [x]
  {
    assert [x][1..] == [];
  }

  /** Removing empty entries keeps the order of the rest: it works entry by
      entry, so it distributes over concatenation. */
  lemma {:induction false} NonEmptyAppend(a: seq<string>, b: seq<string>)
    ensures NonEmpty(a + b) == NonEmpty(a) + NonEmpty(b)
    decreases |a|
  {
    if a == [] {
      assert a + b == b;
    } else {
      assert (a + b)[0] == a[0] && (a + b)[1..] == a[1..] + b;
      NonEmptyAppend(a[1..], b);
    }
  }

  /** `s.Split(seps, StringSplitOptions.RemoveEmptyEntries)` */
  function Split(s: string, seps: seq<string>): (r: seq<string>)
    requires NonEmptySeparators(seps)
    ensures forall t :: t in r <==> t in Pieces(s, seps) && t != ""
    ensures |r| <= |Pieces(s, seps)|
  {
    NonEmpty(Pieces(s, seps))
  }

  /** The first piece is always a prefix of the input. */
  lemma {:induction false} FirstPieceIsPrefix(s: string, seps: seq<string>)
    requires NonEmptySeparators(seps)
    ensures StartsWith(s, Pieces(s, seps)[0])
    decreases |s|
  {
    if s != [] {
      if SeparatorAt(s, seps) == |seps| {
        var rest := Pieces(s[1..], seps);
        FirstPieceIsPrefix(s[1..], seps);
        assert Pieces(s, seps)[0] == [s[0]] + rest[0];
        assert s[..1 + |rest[0]|] == [s[0]] + s[1..][..|rest[0]|];
      } else {
        assert Pieces(s, seps)[0] == "";
      }
    }
  }

  /** No piece contains a separator: had one occurred inside a piece, the scan
      would have cut there. */
  lemma {:induction false} PiecesAvoidSeparators(s: string, seps: seq<string>)
    requires NonEmptySeparators(seps)
    ensures forall p, k, j :: p in Pieces(s, seps) && 0 <= k < |seps| ==> !OccursAt(p, seps[k], j)
    decreases |s|
  {
    if s == [] {
    } else {
      var k0 := SeparatorAt(s, seps);
      if k0 < |seps| {
        PiecesAvoidSeparators(s[|seps[k0]|..], seps);
      } else {
        var rest := Pieces(s[1..], seps);
        PiecesAvoidSeparators(s[1..], seps);
        FirstPieceIsPrefix(s[1..], seps);
        var p0 := [s[0]] + rest[0];
        assert s[..|p0|] == p0 by {
          assert s[..|p0|] == [s[0]] + s[1..][..|rest[0]|];
        }
        forall k, j | 0 <= k < |seps| ensures !OccursAt(p0, seps[k], j) {
          var n := |seps[k]|;
          if 0 < j && j + n <= |p0| {
            assert p0[j..j + n] == rest[0][j - 1..j - 1 + n];
            assert rest[0] in rest;
            assert !OccursAt(rest[0], seps[k], j - 1);
          } else if j == 0 && n <= |p0| {
            assert p0[j..j + n] == s[..|p0|][..n] == s[..n];
            assert !StartsWith(s, seps[k]);
          }
        }
        assert forall p :: p in Pieces(s, seps) ==> p == p0 || p in rest;
      }
    }
  }

  /** The tokens of a split are non-empty and contain no separator. */
  lemma SplitTokens(s: string, seps: seq<string>)
    requires NonEmptySeparators(seps)
    ensures forall t :: t in Split(s, seps) ==> t != ""
    ensures forall t, k, j :: t in Split(s, seps) && 0 <= k < |seps| ==> !OccursAt(t, seps[k], j)
  {
    PiecesAvoidSeparators(s, seps);
  }
}
