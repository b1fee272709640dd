// The JavaScript string operations the feed controller relies on:
// `String.prototype.split` with a one-character separator, taking the last
// (`pop()`) or first (`[0]`) piece, and `toLowerCase`.

module Strings {

  /** `s.split(sep)` for a one-character separator: the maximal runs of
      non-separator characters, including empty runs between adjacent
      separators and at either end. JavaScript never returns an empty array
      here, so neither does this function. */
  function Split(s: string, sep: char): (parts: seq<string>)
    ensures |parts| >= 1
    decreases |s|
  {
    if |s| == 0 then [""]
    else
      var rest := Split(s[1..], sep);
      if s[0] == sep then [""] + rest
      else [[s[0]] + rest[0]] + rest[1..]
  }

  /** The inverse of `Split`: the pieces glued back with the separator. */
  function Join(parts: seq<string>, sep: char): string
  {
    if |parts| == 0 then ""
    else if |parts| == 1 then parts[0]
    else parts[0] + [sep] + Join(parts[1..], sep)
  }

  /** `s.split(sep).pop()`: the piece after the last separator. */
  function LastPiece(s: string, sep: char): string
  {
    var parts := Split(s, sep);
    parts[|parts| - 1]
  }

  /** `s.split(sep)[0]`: the piece before the first separator. */
  function FirstPiece(s: string, sep: char): string
  {
    Split(s, sep)[0]
  }

  /** Independent description of the last piece: a suffix of `s` that holds
      no separator and is either all of `s` or preceded by a separator. */
  ghost predicate IsLastPiece(s: string, sep: char, t: string)
  {
    |t| <= |s| && t == s[|s| - |t|..] && sep !in t &&
    (|t| == |s| || s[|s| - |t| - 1] == sep)
  }

  /** Independent description of the first piece: a prefix of `s` that holds
      no separator and is either all of `s` or followed by a separator. */
  ghost predicate IsFirstPiece(s: string, sep: char, t: string)
  {
    |t| <= |s| && t == s[..|t|] && sep !in t &&
    (|t| == |s| || s[|t|] == sep)
  }

  /** Splitting and joining again gives back the original string. */
  lemma {:induction false} JoinSplit(s: string, sep: char)
    ensures Join(Split(s, sep), sep) == s
    decreases |s|
  {
    if |s| > 0 {
      JoinSplit(s[1..], sep);
      var rest := Split(s[1..], sep);
      if s[0] != sep {
        if |rest| == 1 {
          assert Split(s, sep) == [[s[0]] + rest[0]];
        } else {
          var parts := Split(s, sep);
          assert parts[1..] == rest[1..];
          assert Join(rest, sep) == rest[0] + [sep] + Join(rest[1..], sep);
        }
      } else {
        assert Split(s, sep)[1..] == rest;
      }
      assert s == [s[0]] + s[1..];
    }
  }

  /** There is exactly one more piece than the separator occurs. */
  lemma {:induction false} SplitCount(s: string, sep: char)
    ensures |Split(s, sep)| == 1 + multiset(s)[sep]
    decreases |s|
  {
    if |s| > 0 {
      SplitCount(s[1..], sep);
      assert s == [s[0]] + s[1..];
      assert multiset(s) == multiset([s[0]]) + multiset(s[1..]);
    }
  }

  /** No piece contains the separator. */
  lemma {:induction false} SplitPiecesFree(s: string, sep: char, k: nat)
    requires k < |Split(s, sep)|
    ensures sep !in Split(s, sep)[k]
    decreases |s|
  {
    if |s| > 0 {
      var rest := Split(s[1..], sep);
      if s[0] == sep {
        if k > 0 { SplitPiecesFree(s[1..], sep, k - 1); }
      } else {
        if k == 0 { SplitPiecesFree(s[1..], sep, 0); }
        else { SplitPiecesFree(s[1..], sep, k); }
      }
    }
  }

  /** The piece `pop()` returns is the last piece in the sense of `IsLastPiece`. */
  lemma {:induction false} LastPieceSpec(s: string, sep: char)
    ensures IsLastPiece(s, sep, LastPiece(s, sep))
    decreases |s|
  {
    if |s| > 0 {
      LastPieceSpec(s[1..], sep);
      var rest := Split(s[1..], sep);
      var t := LastPiece(s[1..], sep);
      if s[0] == sep || |rest| > 1 {
        assert LastPiece(s, sep) == t;
        assert s[1..][|s[1..]| - |t|..] == s[|s| - |t|..];
        if s[0] != sep {
          JoinSplit(s[1..], sep);
          assert s[1..] == rest[0] + [sep] + Join(rest[1..], sep);
          assert s[1..][|rest[0]|] == sep;
          assert t != s[1..];
        }
      } else {
        JoinSplit(s[1..], sep);
        assert t == s[1..];
        assert LastPiece(s, sep) == [s[0]] + t;
        assert s == [s[0]] + s[1..];
      }
    }
  }

  /** `IsLastPiece` pins down at most one string. */
  lemma LastPieceUnique(s: string, sep: char, t: string, u: string)
    requires IsLastPiece(s, sep, t) && IsLastPiece(s, sep, u)
    ensures t == u
  {
  }

  /** `pop()` returns exactly the string `IsLastPiece` describes. */
  lemma LastPieceIff(s: string, sep: char, t: string)
    ensures LastPiece(s, sep) == t <==> IsLastPiece(s, sep, t)
  {
    LastPieceSpec(s, sep);
    if IsLastPiece(s, sep, t) { LastPieceUnique(s, sep, t, LastPiece(s, sep)); }
  }

  /** The piece `[0]` returns is the first piece in the sense of `IsFirstPiece`. */
  lemma {:induction false} FirstPieceSpec(s: string, sep: char)
    ensures IsFirstPiece(s, sep, FirstPiece(s, sep))
    decreases |s|
  {
    if |s| > 0 && s[0] != sep {
      FirstPieceSpec(s[1..], sep);
      assert s == [s[0]] + s[1..];
    }
  }

  /** `IsFirstPiece` pins down at most one string. */
  lemma FirstPieceUnique(s: string, sep: char, t: string, u: string)
    requires IsFirstPiece(s, sep, t) && IsFirstPiece(s, sep, u)
    ensures t == u
  {
  }

  /** `[0]` returns exactly the string `IsFirstPiece` describes. */
  lemma FirstPieceIff(s: string, sep: char, t: string)
    ensures FirstPiece(s, sep) == t <==> IsFirstPiece(s, sep, t)
  {
    FirstPieceSpec(s, sep);
    if IsFirstPiece(s, sep, t) { FirstPieceUnique(s, sep, t, FirstPiece(s, sep)); }
  }

  /** A string without the separator is its own single piece. */
  lemma {:induction false} SplitNoSeparator(s: string, sep: char)
    requires sep !in s
    ensures Split(s, sep) == [s]
    decreases |s|
  {
    if |s| > 0 {
      SplitNoSeparator(s[1..], sep);
      assert s == [s[0]] + s[1..];
    }
  }

  /** `toLowerCase` on one character, for the ASCII letters. */
  function LowerChar(c: char): (d: char)
    ensures d == '.' <==> c == '.'
    ensures d == '/' <==> c == '/'
    ensures !('A' <= d <= 'Z')
  {
    if 'A' <= c <= 'Z' then (c as int - 'A' as int + 'a' as int) as char else c
  }

  /** `toLowerCase` on a string, character by character. */
  function Lower(s: string): (r: string)
    ensures |r| == |s|
    ensures forall i :: 0 <= i < |s| ==> r[i] == LowerChar(s[i])
  {
    seq(|s|, i requires 0 <= i < |s| => LowerChar(s[i]))
  }

  /** Lower-casing is idempotent. */
  lemma LowerIdempotent(s: string)
    ensures Lower(Lower(s)) == Lower(s)
  {
  }

  /** Lower-casing keeps separators where they are, so it commutes with
      taking the last piece. */
  lemma {:induction false} LowerLastPiece(s: string, sep: char)
    requires sep == '.' || sep == '/'
    ensures LastPiece(Lower(s), sep) == Lower(LastPiece(s, sep))
  {
    var t := LastPiece(s, sep);
    LastPieceSpec(s, sep);
    var l := Lower(s);
    var lt := Lower(t);
    assert lt == l[|l| - |lt|..] by {
      forall i | 0 <= i < |lt| ensures lt[i] == l[|l| - |lt|..][i] {
        assert t[i] == s[|s| - |t| + i];
      }
    }
    assert sep !in lt by {
      forall i | 0 <= i < |lt| ensures lt[i] != sep {
        assert t[i] in t;
      }
    }
    LastPieceIff(l, sep, lt);
  }
}
