/** The JavaScript string operations the request pipeline relies on:
    `toLowerCase` (over ASCII), `includes` and `split`. */
module Strings {

  predicate IsUpperAscii(c: char) { 'A' <= c <= 'Z' }

  /** `toLowerCase` on one character, restricted to the ASCII letters. */
  function LowerChar(c: char): char
  {
    if IsUpperAscii(c) then (c as int + 32) as char else c
  }

  /** `s.toLowerCase()`: every ASCII capital replaced by its small letter. */
  function ToLower(s: string): string
  {
    seq(|s|, i requires 0 <= i < |s| => LowerChar(s[i]))
  }

  /** Lowering commutes with taking a slice. */
  lemma ToLowerSlice(s: string, i: nat, j: nat)
    requires i <= j <= |s|
    ensures ToLower(s)[i..j] == ToLower(s[i..j])
  {
    var a, b := ToLower(s)[i..j], ToLower(s[i..j]);
    forall k | 0 <= k < j - i
      ensures a[k] == b[k]
    {
      assert a[k] == LowerChar(s[i + k]);
    }
  }

  /** `p` occurs in `s` at index `i`. */
  predicate OccursAt(s: string, p: string, i: nat)
  {
    i + |p| <= |s| && s[i..i + |p|] == p
  }

  /** `s.includes(p)`, as a left-to-right scan. */
  predicate Includes(s: string, p: string)
    decreases |s|
  {
    (|p| <= |s| && s[..|p|] == p) || (|s| > 0 && Includes(s[1..], p))
  }

  /** The scan finds `p` exactly when `p` occurs at some index of `s`. */
  lemma {:induction false} IncludesIff(s: string, p: string)
    ensures Includes(s, p) <==> exists i: nat :: OccursAt(s, p, i)
    decreases |s|
  {
    if |p| <= |s| && s[..|p|] == p {
      assert OccursAt(s, p, 0);
    } else if |s| == 0 {
      assert forall i: nat :: !OccursAt(s, p, i);
    } else {
      IncludesIff(s[1..], p);
      if Includes(s[1..], p) {
        var i: nat :| OccursAt(s[1..], p, i);
        assert s[1..][i..i + |p|] == s[i + 1..i + 1 + |p|];
        assert OccursAt(s, p, i + 1);
      } else {
        forall i: nat ensures !OccursAt(s, p, i) {
          if OccursAt(s, p, i) {
            assert i != 0;
            assert s[1..][i - 1..i - 1 + |p|] == s[i..i + |p|];
            assert OccursAt(s[1..], p, i - 1);
          }
        }
      }
    }
  }

  /** `s.split(sep)`: the pieces between the separators, in order;
      always at least one piece. */
  function Split(s: string, sep: char): (parts: seq<string>)
    ensures |parts| >= 1
    decreases |s|
  {
    if |s| == 0 then [""]
    else
      var rest := Split(s[1..], sep);
      if s[0] == sep then [""] + rest
      else [[s[0]] + rest[0]] + rest[1..]
  }

  /** `parts.join(sep)`. */
  function Join(parts: seq<string>, sep: char): string
    requires |parts| >= 1
    decreases |parts|
  {
    if |parts| == 1 then parts[0] else parts[0] + [sep] + Join(parts[1..], sep)
  }

  /** Splitting loses nothing: joining the pieces gives back the string. */
  lemma {:induction false} SplitJoin(s: string, sep: char)
    ensures Join(Split(s, sep), sep) == s
    decreases |s|
  {
    if |s| > 0 {
      var rest := Split(s[1..], sep);
      SplitJoin(s[1..], sep);
      if s[0] == sep {
        assert Split(s, sep) == [""] + rest;
        assert Join(Split(s, sep), sep) == "" + [sep] + Join(rest, sep);
      } else if |rest| == 1 {
        assert Split(s, sep) == [[s[0]] + rest[0]];
      } else {
        var parts := Split(s, sep);
        assert parts == [[s[0]] + rest[0]] + rest[1..];
        assert parts[1..] == rest[1..];
        assert Join(rest, sep) == rest[0] + [sep] + Join(rest[1..], sep);
        assert Join(parts, sep) == [s[0]] + rest[0] + [sep] + Join(rest[1..], sep);
      }
    }
  }

  /** No piece of a split contains the separator. */
  lemma {:induction false} SplitPiecesFree(s: string, sep: char)
    ensures forall k :: 0 <= k < |Split(s, sep)| ==> sep !in Split(s, sep)[k]
    decreases |s|
  {
    if |s| > 0 {
      SplitPiecesFree(s[1..], sep);
    }
  }

  /** The first piece of a split is the prefix of `s` up to (not including)
      the first separator, or all of `s` when there is none. */
  lemma {:induction false} FirstPiece(s: string, sep: char)
    ensures var p := Split(s, sep)[0];
      && |p| <= |s| && p == s[..|p|]
      && sep !in p
      && (|p| < |s| ==> s[|p|] == sep)
    decreases |s|
  {
    if |s| > 0 {
      FirstPiece(s[1..], sep);
    }
  }

  /** The first piece is the only prefix with those three properties. */
  lemma FirstPieceUnique(s: string, sep: char, p: string)
    requires |p| <= |s| && p == s[..|p|] && sep !in p
    requires |p| == |s| || s[|p|] == sep
    ensures Split(s, sep)[0] == p
  {
    FirstPiece(s, sep);
  }

  /** `q` is what follows the last `sep` in `s`, or all of `s` when it holds no `sep`. */
  predicate IsAfterLast(s: string, sep: char, q: string)
  {
    && |q| <= |s| && q == s[|s| - |q|..]
    && sep !in q
    && (|q| < |s| ==> s[|s| - |q| - 1] == sep)
  }

  /** Joining two or more pieces puts a separator into the result. */
  lemma JoinHasSep(parts: seq<string>, sep: char)
    requires |parts| >= 2
    ensures sep in Join(parts, sep)
  {
  }

  /** What follows the last separator of `s[1..]` also follows the last
      separator of `s`, unless it is all of `s[1..]` and `s[0]` is no separator. */
  lemma AfterLastOfTail(s: string, sep: char, q: string)
    requires |s| > 0 && IsAfterLast(s[1..], sep, q)
    requires |q| < |s| - 1 || s[0] == sep
    ensures IsAfterLast(s, sep, q)
  {
    assert s[1..][|s| - 1 - |q|..] == s[|s| - |q|..];
    if |q| < |s| - 1 {
      assert s[1..][|s| - 1 - |q| - 1] == s[|s| - |q| - 1];
    }
  }

  /** The last piece of a split is what follows the last separator. */
  lemma {:induction false} LastPiece(s: string, sep: char)
    ensures IsAfterLast(s, sep, Split(s, sep)[|Split(s, sep)| - 1])
    decreases |s|
  {
    if |s| > 0 {
      var rest := Split(s[1..], sep);
      var parts := Split(s, sep);
      var q := rest[|rest| - 1];
      LastPiece(s[1..], sep);
      if s[0] != sep && |rest| == 1 {
        SplitJoin(s[1..], sep);
        assert parts == [[s[0]] + q];
        assert [s[0]] + s[1..] == s;
      } else {
        assert parts[|parts| - 1] == q;
        if s[0] != sep {
          SplitJoin(s[1..], sep);
          JoinHasSep(rest, sep);
          assert |q| < |s| - 1;
        }
        AfterLastOfTail(s, sep, q);
      }
    }
  }
}
