/** String splitting and joining as JavaScript's String.prototype.split (with a
    non-empty string separator) and Array.prototype.join behave on them. */
module Text {

  /** `s.split(sep)`: occurrences of `sep` are found left to right without
      overlap; the text between them is returned, empty pieces included. */
  function Split(s: string, sep: string): (parts: seq<string>)
    requires sep != []
    ensures |parts| >= 1
    ensures |parts| == 1 ==> parts[0] == s
    decreases |s|
  {
    if |s| < |sep| then [s]
    else if s[..|sep|] == sep then [""] + Split(s[|sep|..], sep)
    else
      var rest := Split(s[1..], sep);
      [[s[0]] + rest[0]] + rest[1..]
  }

  /** `parts.join(sep)`: the pieces in order with `sep` between neighbours;
      the text starts with the first piece and ends with the last. */
  function Join(parts: seq<string>, sep: string): (s: string)
    ensures parts == [] ==> s == ""
    ensures |parts| >= 1 ==> |s| >= |parts[0]| && s[..|parts[0]|] == parts[0]
    decreases |parts|
  {
    if |parts| == 0 then ""
    else if |parts| == 1 then parts[0]
    else parts[0] + sep + Join(parts[1..], sep)
  }

  /** The last element of a non-empty sequence (`Array.prototype.pop`'s result):
      the sequence is the ones before it followed by it. */
  function Last<T>(s: seq<T>): (x: T)
    requires |s| > 0
    ensures s == s[..|s| - 1] + [x]
  {
    s[|s| - 1]
  }

  /** Joining the pieces of a split with the same separator gives the text back. */
  lemma {:induction false} JoinSplit(s: string, sep: string)
    requires sep != []
    ensures Join(Split(s, sep), sep) == s
    decreases |s|
  {
    if |s| < |sep| {
    } else if s[..|sep|] == sep {
      var rest := Split(s[|sep|..], sep);
      assert Split(s, sep) == [""] + rest;
      assert ([""] + rest)[1..] == rest;
      JoinSplit(s[|sep|..], sep);
      assert s == sep + s[|sep|..];
    } else {
      var rest := Split(s[1..], sep);
      JoinSplit(s[1..], sep);
      JoinPrependChar(s[0], rest, sep);
      assert s == [s[0]] + s[1..];
    }
  }

  /** Prepending a character to the first piece prepends it to the join. */
  lemma JoinPrependChar(c: char, parts: seq<string>, sep: string)
    requires |parts| >= 1
    ensures Join([[c] + parts[0]] + parts[1..], sep) == [c] + Join(parts, sep)
  {
  }

  /** A text in which the separator's first character does not occur is one piece. */
  lemma {:induction false} SplitWithoutSeparator(p: string, sep: string)
    requires sep != [] && sep[0] !in p
    ensures Split(p, sep) == [p]
    decreases |p|
  {
    if |p| >= |sep| {
      assert p[..|sep|][0] == p[0] != sep[0];
      SplitWithoutSeparator(p[1..], sep);
      assert [p[0]] + p[1..] == p;
    }
  }

  /** A first piece free of the separator's first character is split off whole. */
  lemma {:induction false} SplitAfterPiece(p: string, sep: string, t: string)
    requires sep != [] && sep[0] !in p
    ensures Split(p + sep + t, sep) == [p] + Split(t, sep)
    decreases |p|
  {
    var s := p + sep + t;
    if p == [] {
      assert s[..|sep|] == sep && s[|sep|..] == t;
    } else {
      assert s[..|sep|][0] == p[0] != sep[0];
      assert s[1..] == p[1..] + sep + t;
      SplitAfterPiece(p[1..], sep, t);
      assert [p[0]] + p[1..] == p;
    }
  }

  /** Splitting a join gives the pieces back, provided no piece holds the
      separator's first character. */
  lemma {:induction false} SplitJoin(parts: seq<string>, sep: string)
    requires sep != [] && |parts| >= 1
    requires forall i :: 0 <= i < |parts| ==> sep[0] !in parts[i]
    ensures Split(Join(parts, sep), sep) == parts
    decreases |parts|
  {
    if |parts| == 1 {
      SplitWithoutSeparator(parts[0], sep);
    } else {
      SplitJoin(parts[1..], sep);
      SplitAfterPiece(parts[0], sep, Join(parts[1..], sep));
      assert [parts[0]] + parts[1..] == parts;
    }
  }

  /** `t` is the text after the last `c` in `s`, where `count` is the number of
      pieces: `t` holds no `c` and ends `s`; either it is the whole of `s` and
      there is one piece, or there are several and the character just before
      `t` is `c`. */
  ghost predicate IsTextAfterLast(s: string, c: char, count: nat, t: string)
  {
    c !in t && |t| <= |s| && s[|s| - |t|..] == t &&
    ((count == 1 && t == s) || (count > 1 && |t| < |s| && s[|s| - |t| - 1] == c))
  }

  /** The last piece of a split on the character `c` is the text after the last `c`. */
  lemma {:induction false} LastPieceAfterLastSeparator(s: string, c: char)
    ensures IsTextAfterLast(s, c, |Split(s, [c])|, Last(Split(s, [c])))
    decreases |s|
  {
    if |s| >= 1 {
      LastPieceAfterLastSeparator(s[1..], c);
      if s[0] == c {
        LastPieceBehindSeparator(s, c);
      } else {
        LastPieceBehindOther(s, c);
      }
    }
  }

  /** Induction step of LastPieceAfterLastSeparator when `s` starts with `c`. */
  lemma LastPieceBehindSeparator(s: string, c: char)
    requires |s| >= 1 && s[0] == c
    requires IsTextAfterLast(s[1..], c, |Split(s[1..], [c])|, Last(Split(s[1..], [c])))
    ensures IsTextAfterLast(s, c, |Split(s, [c])|, Last(Split(s, [c])))
  {
    var rest := Split(s[1..], [c]);
    var t := Last(rest);
    assert s[..1] == [c];
    assert Split(s, [c]) == [""] + rest;
    assert Last(Split(s, [c])) == t;
    assert s[1..][|s| - 1 - |t|..] == s[|s| - |t|..];
    if |t| < |s| - 1 {
      assert s[1..][|s| - 1 - |t| - 1] == s[|s| - |t| - 1];
    }
  }

  /** Induction step of LastPieceAfterLastSeparator when `s` starts with another character. */
  lemma LastPieceBehindOther(s: string, c: char)
    requires |s| >= 1 && s[0] != c
    requires IsTextAfterLast(s[1..], c, |Split(s[1..], [c])|, Last(Split(s[1..], [c])))
    ensures IsTextAfterLast(s, c, |Split(s, [c])|, Last(Split(s, [c])))
  {
    SplitStepOther(s, c);
    if |Split(s[1..], [c])| == 1 {
      OnePieceBehindOther(s, c);
    } else {
      SeveralPiecesBehindOther(s, c);
    }
  }

  /** One unfolding of Split on a character when `s` does not start with it. */
  lemma SplitStepOther(s: string, c: char)
    requires |s| >= 1 && s[0] != c
    ensures Split(s, [c]) == [[s[0]] + Split(s[1..], [c])[0]] + Split(s[1..], [c])[1..]
  {
    assert s[..1] != [c];
  }

  /** The one-piece case of LastPieceBehindOther: `s` holds no `c` and is one piece. */
  lemma OnePieceBehindOther(s: string, c: char)
    requires |s| >= 1 && s[0] != c
    requires Split(s, [c]) == [[s[0]] + Split(s[1..], [c])[0]] + Split(s[1..], [c])[1..]
    requires |Split(s[1..], [c])| == 1
    requires IsTextAfterLast(s[1..], c, 1, Split(s[1..], [c])[0])
    ensures IsTextAfterLast(s, c, |Split(s, [c])|, Last(Split(s, [c])))
  {
    var rest := Split(s[1..], [c]);
    assert rest[0] == s[1..];
    assert [s[0]] + s[1..] == s;
    assert Split(s, [c]) == [s];
    assert c !in s by {
      forall i | 0 <= i < |s| ensures s[i] != c {
        if i > 0 {
          assert s[i] == s[1..][i - 1];
        }
      }
    }
  }

  /** The several-pieces case of LastPieceBehindOther: the last piece is the same
      as that of `s[1..]`. */
  lemma SeveralPiecesBehindOther(s: string, c: char)
    requires |s| >= 1 && s[0] != c
    requires Split(s, [c]) == [[s[0]] + Split(s[1..], [c])[0]] + Split(s[1..], [c])[1..]
    requires |Split(s[1..], [c])| > 1
    requires IsTextAfterLast(s[1..], c, |Split(s[1..], [c])|, Last(Split(s[1..], [c])))
    ensures IsTextAfterLast(s, c, |Split(s, [c])|, Last(Split(s, [c])))
  {
    var t := Last(Split(s[1..], [c]));
    assert Last(Split(s, [c])) == t;
    assert s[1..][|s| - 1 - |t|..] == s[|s| - |t|..];
    assert s[1..][|s| - 1 - |t| - 1] == s[|s| - |t| - 1];
  }
}
