/** The string operations the parsers lean on: splitting, joining, prefixes and suffixes. */
module Text {

  /** The separator test for one character. */
  function Is(c: char): char -> bool {
    x => x == c
  }

  /** `split`: the pieces between separators, empty ones included, so never none at all. */
  function Split(s: string, sep: char -> bool): (pieces: seq<string>)
    ensures |pieces| >= 1
  {
    if s == "" then [""]
    else
      var rest := Split(s[1..], sep);
      if sep(s[0]) then [""] + rest else [[s[0]] + rest[0]] + rest[1..]
  }

  function Join(pieces: seq<string>, c: char): string
    requires |pieces| >= 1
  {
    if |pieces| == 1 then pieces[0] else pieces[0] + [c] + Join(pieces[1..], c)
  }

  predicate StartsWith(s: string, prefix: string) {
    prefix <= s
  }

  predicate EndsWith(s: string, suffix: string) {
    |suffix| <= |s| && s[|s| - |suffix|..] == suffix
  }

  predicate Contains(s: string, part: string) {
    StartsWith(s, part) || (s != "" && Contains(s[1..], part))
  }

  /** `contains`: the part occurs somewhere. */
  lemma {:induction false} ContainsExactlyWhen(s: string, part: string)
    ensures Contains(s, part) <==> exists before, after :: s == before + part + after
  {
    if StartsWith(s, part) {
      assert s == "" + part + s[|part|..];
    } else if s != "" {
      ContainsExactlyWhen(s[1..], part);
      if before, after :| s[1..] == before + part + after {
        assert s == ([s[0]] + before) + part + after;
      }
      if before, after :| s == before + part + after {
        assert part <= part + after && before + part + after == before + (part + after);
        assert before != "";
        assert s[1..] == before[1..] + part + after;
      }
    } else {
      assert forall before, after :: s == before + part + after ==> part == "";
    }
  }

  /** Index of the first occurrence, or the length. */
  function Find(s: string, c: char): (at: nat)
    ensures at <= |s|
    ensures c !in s[..at]
    ensures at < |s| ==> s[at] == c
  {
    if s == "" || s[0] == c then 0 else 1 + Find(s[1..], c)
  }

  lemma {:induction false} FindIs(s: string, c: char, at: nat)
    requires at <= |s| && c !in s[..at] && (at < |s| ==> s[at] == c)
    ensures Find(s, c) == at
  {
    if at > 0 {
      assert s[0] in s[..at];
      assert s[..at] == [s[0]] + s[1..][..at - 1];
      FindIs(s[1..], c, at - 1);
    }
  }

  lemma Regroup<T>(a: seq<T>, b: seq<T>, c: seq<T>)
    ensures a + (b + c) == (a + b) + c
  {
  }

  lemma GrowFirst(c: char, left: seq<string>, right: seq<string>)
    requires |left| >= 1
    ensures [[c] + (left + right)[0]] + (left + right)[1..] == ([[c] + left[0]] + left[1..]) + right
  {
  }

  /** Splitting at a separator cuts the pieces there and nowhere else. */
  lemma {:induction false} SplitAtSeparator(a: string, c: char, b: string, sep: char -> bool)
    requires sep(c)
    ensures Split(a + [c] + b, sep) == Split(a, sep) + Split(b, sep)
  {
    var whole := a + [c] + b;
    if a == "" {
      assert whole[1..] == b;
    } else {
      SplitAtSeparator(a[1..], c, b, sep);
      assert whole[1..] == a[1..] + [c] + b;
      var left, right := Split(a[1..], sep), Split(b, sep);
      if sep(a[0]) {
        Regroup([""], left, right);
      } else {
        GrowFirst(a[0], left, right);
      }
    }
  }

  lemma {:induction false} SplitWithoutSeparator(s: string, sep: char -> bool)
    requires forall c :: c in s ==> !sep(c)
    ensures Split(s, sep) == [s]
  {
    if s != "" {
      SplitWithoutSeparator(s[1..], sep);
      assert s == [s[0]] + s[1..];
    }
  }

  lemma {:induction false} PiecesHaveNoSeparator(s: string, sep: char -> bool, piece: string, c: char)
    requires piece in Split(s, sep) && c in piece
    ensures !sep(c)
  {
    if s != "" {
      var rest := Split(s[1..], sep);
      if piece in rest {
        PiecesHaveNoSeparator(s[1..], sep, piece, c);
      } else if !sep(s[0]) && piece == [s[0]] + rest[0] && c in rest[0] {
        PiecesHaveNoSeparator(s[1..], sep, rest[0], c);
      }
    }
  }

  /** Splitting undoes joining when no piece holds the separator. */
  lemma {:induction false} SplitOfJoin(pieces: seq<string>, c: char)
    requires |pieces| >= 1
    requires forall piece :: piece in pieces ==> c !in piece
    ensures Split(Join(pieces, c), Is(c)) == pieces
  {
    SplitWithoutSeparator(pieces[0], Is(c));
    if |pieces| > 1 {
      SplitOfJoin(pieces[1..], c);
      SplitAtSeparator(pieces[0], c, Join(pieces[1..], c), Is(c));
    }
  }

  /** Joining undoes splitting. */
  lemma {:induction false} JoinOfSplit(s: string, c: char)
    ensures Join(Split(s, Is(c)), c) == s
  {
    if s != "" {
      JoinOfSplit(s[1..], c);
      var rest := Split(s[1..], Is(c));
      var pieces := Split(s, Is(c));
      if s[0] == c {
        assert pieces[1..] == rest;
      } else if |rest| > 1 {
        assert pieces[1..] == rest[1..];
      }
    }
  }
}
