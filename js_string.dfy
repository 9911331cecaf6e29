/** `String.prototype.split` with a non-empty separator, and its inverse `Array.prototype.join`. */
module JsString {

  /** `sep` occurs in `s` starting at position `i`. */
  predicate OccursAt(s: string, sep: string, i: int)
  {
    0 <= i && i + |sep| <= |s| && s[i..i + |sep|] == sep
  }

  ghost predicate Contains(s: string, sep: string)
  {
    exists i :: OccursAt(s, sep, i)
  }

  /**
   * `s.split(sep)`: the pieces of `s` between the occurrences of `sep`, found
   * left to right without overlap; a string without `sep` is one piece.
   */
  function Split(s: string, sep: string): (r: seq<string>)
    requires |sep| > 0
    ensures |r| >= 1
    ensures r[0] <= s
    decreases |s|
  {
    if |s| < |sep| then [s]
    else if s[..|sep|] == sep then [""] + Split(s[|sep|..], sep)
    else
      var rest := Split(s[1..], sep);
      [[s[0]] + rest[0]] + rest[1..]
  }

  /** `pieces.join(sep)`. */
  function Join(pieces: seq<string>, sep: string): string
  {
    if |pieces| == 0 then ""
    else if |pieces| == 1 then pieces[0]
    else pieces[0] + sep + Join(pieces[1..], sep)
  }

  /** Joining the pieces with the separator gives back the string that was split. */
  lemma {:induction false} JoinSplit(s: string, sep: string)
    requires |sep| > 0
    ensures Join(Split(s, sep), sep) == s
    decreases |s|
  {
    if |s| < |sep| {
    } else if s[..|sep|] == sep {
      var rest := Split(s[|sep|..], sep);
      JoinSplit(s[|sep|..], sep);
      assert ([""] + rest)[1..] == rest;
      calc {
        Join(Split(s, sep), sep);
        Join([""] + rest, sep);
        "" + sep + Join(rest, sep);
        sep + s[|sep|..];
        s;
      }
    } else {
      var rest := Split(s[1..], sep);
      var head := [s[0]] + rest[0];
      JoinSplit(s[1..], sep);
      if |rest| == 1 {
        calc {
          Join(Split(s, sep), sep);
          Join([head], sep);
          head;
          [s[0]] + Join(rest, sep);
          [s[0]] + s[1..];
          s;
        }
      } else {
        assert ([head] + rest[1..])[1..] == rest[1..];
        calc {
          Join(Split(s, sep), sep);
          Join([head] + rest[1..], sep);
          head + sep + Join(rest[1..], sep);
          [s[0]] + (rest[0] + sep + Join(rest[1..], sep));
          [s[0]] + Join(rest, sep);
          [s[0]] + s[1..];
          s;
        }
      }
    }
  }

  /** No piece of a split contains the separator. */
  lemma {:induction false} SplitPiecesAvoidSeparator(s: string, sep: string)
    requires |sep| > 0
    ensures forall k :: 0 <= k < |Split(s, sep)| ==> !Contains(Split(s, sep)[k], sep)
    decreases |s|
  {
    var r := Split(s, sep);
    if |s| < |sep| {
      assert forall i :: !OccursAt(s, sep, i);
    } else if s[..|sep|] == sep {
      SplitPiecesAvoidSeparator(s[|sep|..], sep);
      assert forall i :: !OccursAt("", sep, i);
      assert forall k :: 1 <= k < |r| ==> r[k] == Split(s[|sep|..], sep)[k - 1];
    } else {
      var rest := Split(s[1..], sep);
      SplitPiecesAvoidSeparator(s[1..], sep);
      var head := [s[0]] + rest[0];
      assert head <= s;
      forall i
        ensures !OccursAt(head, sep, i)
      {
        if i == 0 && |sep| <= |head| {
          assert head[..|sep|] == s[..|sep|];
        } else if 0 < i && i + |sep| <= |head| {
          assert head[i..i + |sep|] == rest[0][i - 1..i - 1 + |sep|];
          assert !OccursAt(rest[0], sep, i - 1);
        }
      }
      assert forall k :: 1 <= k < |r| ==> r[k] == rest[k];
    }
  }

  /** `s` has no character equal to `c`. */
  predicate Avoids(s: string, c: char)
  {
    forall i :: 0 <= i < |s| ==> s[i] != c
  }

  /** A string free of the separator's first character is a single piece. */
  lemma {:induction false} SplitAvoiding(s: string, sep: string)
    requires |sep| > 0 && Avoids(s, sep[0])
    ensures Split(s, sep) == [s]
    decreases |s|
  {
    if |s| >= |sep| {
      assert s[..|sep|][0] == s[0];
      SplitAvoiding(s[1..], sep);
      assert [s[0]] + s[1..] == s;
    }
  }

  /**
   * A first piece free of the separator's first character ends at the
   * separator that follows it.
   */
  lemma {:induction false} SplitAfterPiece(x: string, sep: string, y: string)
    requires |sep| > 0 && Avoids(x, sep[0])
    ensures Split(x + sep + y, sep) == [x] + Split(y, sep)
    decreases |x|
  {
    var s := x + sep + y;
    if x == [] {
      assert s == sep + y;
      assert s[..|sep|] == sep;
      assert s[|sep|..] == y;
    } else {
      assert s[..|sep|][0] == x[0];
      assert s[1..] == x[1..] + sep + y;
      SplitAfterPiece(x[1..], sep, y);
      assert [x[0]] + x[1..] == x;
    }
  }

  /**
   * Splitting undoes joining when no piece holds the separator's first
   * character.
   */
  lemma {:induction false} SplitJoinAvoiding(pieces: seq<string>, sep: string)
    requires |sep| > 0 && |pieces| >= 1
    requires forall k :: 0 <= k < |pieces| ==> Avoids(pieces[k], sep[0])
    ensures Split(Join(pieces, sep), sep) == pieces
    decreases |pieces|
  {
    if |pieces| == 1 {
      SplitAvoiding(pieces[0], sep);
    } else {
      SplitAfterPiece(pieces[0], sep, Join(pieces[1..], sep));
      SplitJoinAvoiding(pieces[1..], sep);
      assert [pieces[0]] + pieces[1..] == pieces;
    }
  }

  /** A string in which the separator never occurs is a single piece. */
  lemma {:induction false} SplitWithoutSeparator(s: string, sep: string)
    requires |sep| > 0 && forall i :: !OccursAt(s, sep, i)
    ensures Split(s, sep) == [s]
    decreases |s|
  {
    if |s| >= |sep| {
      assert !OccursAt(s, sep, 0);
      forall i
        ensures !OccursAt(s[1..], sep, i)
      {
        if OccursAt(s[1..], sep, i) {
          assert s[1..][i..i + |sep|] == s[i + 1..i + 1 + |sep|];
          assert OccursAt(s, sep, i + 1);
        }
      }
      SplitWithoutSeparator(s[1..], sep);
      assert [s[0]] + s[1..] == s;
    }
  }

  /** An occurrence past the first character is an occurrence in the rest of the string. */
  lemma OccursAtShift(s: string, sep: string, i: int)
    requires |s| > 0 && i >= 1
    ensures OccursAt(s, sep, i) == OccursAt(s[1..], sep, i - 1)
  {
    if i + |sep| <= |s| {
      assert s[i..i + |sep|] == s[1..][i - 1..i - 1 + |sep|];
    }
  }

  /**
   * The first piece is the text before the first occurrence of the
   * separator: no occurrence starts inside it, and when the separator occurs
   * at all, it occurs right after it.
   */
  lemma {:induction false} SplitFirstPiece(s: string, sep: string)
    requires |sep| > 0
    ensures forall i :: 0 <= i < |Split(s, sep)[0]| ==> !OccursAt(s, sep, i)
    ensures Contains(s, sep) ==> OccursAt(s, sep, |Split(s, sep)[0]|)
    decreases |s|
  {
    if |s| < |sep| {
      assert forall i :: !OccursAt(s, sep, i);
    } else if s[..|sep|] == sep {
      assert OccursAt(s, sep, 0);
    } else {
      var rest := Split(s[1..], sep);
      var m := |rest[0]|;
      SplitFirstPiece(s[1..], sep);
      assert |Split(s, sep)[0]| == m + 1;
      assert !OccursAt(s, sep, 0);
      forall i | 1 <= i < m + 1
        ensures !OccursAt(s, sep, i)
      {
        OccursAtShift(s, sep, i);
      }
      if Contains(s, sep) {
        var j :| OccursAt(s, sep, j);
        OccursAtShift(s, sep, j);
        OccursAtShift(s, sep, m + 1);
      }
    }
  }
}
