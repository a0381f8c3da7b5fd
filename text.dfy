/** The ordinal string operations of System.String that the file helpers rely on:
    substring containment (String.Contains) and left-to-right, non-overlapping
    replace-all (String.Replace), both comparing character by character.
    A Dafny string is a sequence of Unicode scalar values, whereas a .NET
    string is a sequence of UTF-16 code units; on well-formed text both scans
    find the same occurrences, and lone surrogates cannot be written here. */
module Text {

  /** `find` occurs in `s` starting at index `i`. */
  predicate OccursAt(s: string, find: string, i: nat)
  {
    i + |find| <= |s| && s[i..i + |find|] == find
  }

  /** String.Contains: does `find` occur anywhere in `s`? The empty string
      occurs in every string. */
  function Contains(s: string, find: string): bool
    decreases |s|
  {
    if |s| < |find| then false
    else if find <= s then true
    else Contains(s[1..], find)
  }

  /** String.Replace with a non-empty old value: scan `s` from the left; at each
      index where `find` starts, emit `rep` and resume after the occurrence,
      otherwise copy one character. Occurrences are therefore replaced
      left to right and never overlap. */
  function Replace(s: string, find: string, rep: string): string
    requires find != []
    decreases |s|
  {
    if |s| < |find| then s
    else if find <= s then rep + Replace(s[|find|..], find, rep)
    else [s[0]] + Replace(s[1..], find, rep)
  }

  /** The pieces of `s` between the occurrences of `sep` that the same
      left-to-right scan finds. There is always one more piece than occurrences. */
  function Split(s: string, sep: string): (pieces: seq<string>)
    requires sep != []
    ensures |pieces| >= 1 && pieces[0] <= s
    decreases |s|
  {
    if |s| < |sep| then [s]
    else if sep <= s then [[]] + Split(s[|sep|..], sep)
    else
      var rest := Split(s[1..], sep);
      [[s[0]] + rest[0]] + rest[1..]
  }

  /** The pieces glued together with `sep` between neighbours. */
  function Join(pieces: seq<string>, sep: string): string
    requires |pieces| >= 1
  {
    if |pieces| == 1 then pieces[0] else pieces[0] + sep + Join(pieces[1..], sep)
  }

  // ---------------------------------------------------------------------------
  // Containment

  lemma OccursShift(s: string, find: string, i: nat)
    requires |s| > 0
    ensures OccursAt(s[1..], find, i) <==> OccursAt(s, find, i + 1)
  {
    if i + 1 + |find| <= |s| {
      assert s[1..][i..i + |find|] == s[i + 1..i + 1 + |find|];
    }
  }

  /** Contains agrees with the definition by position: `find` is contained in
      `s` exactly when it occurs at some index. */
  lemma {:induction false} ContainsIffOccurs(s: string, find: string)
    ensures Contains(s, find) <==> exists i: nat :: OccursAt(s, find, i)
    decreases |s|
  {
    if |s| < |find| {
    } else if find <= s {
      assert OccursAt(s, find, 0);
    } else {
      assert !OccursAt(s, find, 0);
      ContainsIffOccurs(s[1..], find);
      if Contains(s[1..], find) {
        var i: nat :| OccursAt(s[1..], find, i);
        OccursShift(s, find, i);
      } else {
        forall i: nat | OccursAt(s, find, i) ensures false {
          OccursShift(s, find, i - 1);
        }
      }
    }
  }

  // ---------------------------------------------------------------------------
  // Split and Join: the decomposition behind Replace

  lemma JoinConsHead(c: char, pieces: seq<string>, sep: string)
    requires |pieces| >= 1
    ensures Join([[c] + pieces[0]] + pieces[1..], sep) == [c] + Join(pieces, sep)
  {
    var ps := [[c] + pieces[0]] + pieces[1..];
    if |pieces| > 1 {
      assert ps[1..] == pieces[1..];
    }
  }

  /** Splitting loses nothing: joining the pieces back with the separator gives
      the original string. */
  lemma {:induction false} JoinSplit(s: string, sep: string)
    requires sep != []
    ensures Join(Split(s, sep), sep) == s
    decreases |s|
  {
    if |s| < |sep| {
    } else if sep <= s {
      var tail := Split(s[|sep|..], sep);
      JoinSplit(s[|sep|..], sep);
      calc {
        Join(Split(s, sep), sep);
        { assert Split(s, sep) == [[]] + tail && ([[]] + tail)[1..] == tail; }
        [] + sep + Join(tail, sep);
        sep + s[|sep|..];
      }
    } else {
      var rest := Split(s[1..], sep);
      JoinSplit(s[1..], sep);
      calc {
        Join(Split(s, sep), sep);
        { assert Split(s, sep) == [[s[0]] + rest[0]] + rest[1..]; }
        Join([[s[0]] + rest[0]] + rest[1..], sep);
        { JoinConsHead(s[0], rest, sep); }
        [s[0]] + s[1..];
      }
    }
  }

  lemma {:induction false} SplitFirstPieceFree(s: string, sep: string)
    requires sep != []
    ensures forall j: nat :: j < |Split(s, sep)[0]| ==> !OccursAt(s, sep, j)
    decreases |s|
  {
    if |s| >= |sep| && !(sep <= s) {
      var rest := Split(s[1..], sep);
      SplitFirstPieceFree(s[1..], sep);
      assert Split(s, sep)[0] == [s[0]] + rest[0];
      forall j: nat | j < 1 + |rest[0]| ensures !OccursAt(s, sep, j) {
        if j > 0 {
          OccursShift(s, sep, j - 1);
        }
      }
    }
  }

  lemma {:induction false} SplitNext(s: string, sep: string)
    requires sep != []
    requires |Split(s, sep)| > 1
    ensures var ps := Split(s, sep);
      && OccursAt(s, sep, |ps[0]|)
      && ps[1..] == Split(s[|ps[0]| + |sep|..], sep)
    decreases |s|
  {
    var ps := Split(s, sep);
    if sep <= s {
      var tail := Split(s[|sep|..], sep);
      assert ps == [[]] + tail;
      assert ps[1..] == tail;
      assert OccursAt(s, sep, 0);
    } else {
      var rest := Split(s[1..], sep);
      assert ps == [[s[0]] + rest[0]] + rest[1..];
      SplitNext(s[1..], sep);
      OccursShift(s, sep, |rest[0]|);
      assert s[1..][|rest[0]| + |sep|..] == s[|ps[0]| + |sep|..];
      assert ps[1..] == rest[1..];
    }
  }

  /** Split is the greedy leftmost scan: no occurrence of `sep` starts inside
      the first piece; if there is a second piece, an occurrence starts right
      after the first, and the remaining pieces are the split of what follows
      that occurrence; otherwise the only piece is the whole string. */
  lemma SplitLeftmost(s: string, sep: string)
    requires sep != []
    ensures var ps := Split(s, sep);
      && (forall j: nat :: j < |ps[0]| ==> !OccursAt(s, sep, j))
      && (|ps| == 1 ==> ps[0] == s)
      && (|ps| > 1 ==>
            && OccursAt(s, sep, |ps[0]|)
            && ps[1..] == Split(s[|ps[0]| + |sep|..], sep))
  {
    SplitFirstPieceFree(s, sep);
    JoinSplit(s, sep);
    if |Split(s, sep)| > 1 {
      SplitNext(s, sep);
    }
  }

  /** There is more than one piece exactly when the separator occurs. */
  lemma {:induction false} SplitCountContains(s: string, sep: string)
    requires sep != []
    ensures |Split(s, sep)| > 1 <==> Contains(s, sep)
  {
    var ps := Split(s, sep);
    SplitLeftmost(s, sep);
    ContainsIffOccurs(s, sep);
    if |ps| == 1 {
      forall i: nat | i + |sep| <= |s| ensures !OccursAt(s, sep, i) {
      }
    }
  }

  // ---------------------------------------------------------------------------
  // Replace

  /** Replace substitutes `rep` for the separator between the pieces of the
      leftmost split and changes nothing else. With JoinSplit and SplitLeftmost
      this pins down the result completely. */
  lemma {:induction false} ReplaceIsJoinSplit(s: string, find: string, rep: string)
    requires find != []
    ensures Replace(s, find, rep) == Join(Split(s, find), rep)
    decreases |s|
  {
    if |s| < |find| {
    } else if find <= s {
      var tail := Split(s[|find|..], find);
      ReplaceIsJoinSplit(s[|find|..], find, rep);
      assert ([[]] + tail)[1..] == tail;
    } else {
      ReplaceIsJoinSplit(s[1..], find, rep);
      JoinConsHead(s[0], Split(s[1..], find), rep);
    }
  }

  /** A string that does not contain `find` is returned unchanged. */
  lemma {:induction false} ReplaceAbsent(s: string, find: string, rep: string)
    requires find != []
    requires !Contains(s, find)
    ensures Replace(s, find, rep) == s
  {
    SplitCountContains(s, find);
    SplitLeftmost(s, find);
    ReplaceIsJoinSplit(s, find, rep);
  }

  /** Replacing a text by itself is the identity. */
  lemma {:induction false} ReplaceBySelf(s: string, find: string)
    requires find != []
    ensures Replace(s, find, find) == s
  {
    ReplaceIsJoinSplit(s, find, find);
    JoinSplit(s, find);
  }

  lemma {:induction false} ReplaceShrinks(s: string, find: string, rep: string)
    requires find != [] && |rep| <= |find|
    ensures |Replace(s, find, rep)| <= |s|
    decreases |s|
  {
    if |s| < |find| {
    } else if find <= s {
      ReplaceShrinks(s[|find|..], find, rep);
    } else {
      ReplaceShrinks(s[1..], find, rep);
    }
  }

  lemma {:induction false} ReplaceGrows(s: string, find: string, rep: string)
    requires find != [] && |rep| >= |find|
    ensures |Replace(s, find, rep)| >= |s|
    decreases |s|
  {
    if |s| < |find| {
    } else if find <= s {
      ReplaceGrows(s[|find|..], find, rep);
    } else {
      ReplaceGrows(s[1..], find, rep);
    }
  }

  /** Replace leaves a string as it was exactly when `find` does not occur in
      it or the replacement equals `find`: every real substitution is visible
      in the result. */
  lemma {:induction false} ReplaceUnchangedIff(s: string, find: string, rep: string)
    requires find != []
    ensures Replace(s, find, rep) == s <==> !Contains(s, find) || rep == find
    decreases |s|
  {
    if !Contains(s, find) {
      ReplaceAbsent(s, find, rep);
    } else if rep == find {
      ReplaceBySelf(s, find);
    } else if find <= s {
      var rest := s[|find|..];
      var r := Replace(s, find, rep);
      assert r == rep + Replace(rest, find, rep);
      if |rep| == |find| {
        assert r[..|rep|] == rep;
        assert s[..|find|] == find;
      } else if |rep| < |find| {
        ReplaceShrinks(rest, find, rep);
      } else {
        ReplaceGrows(rest, find, rep);
      }
    } else {
      ReplaceUnchangedIff(s[1..], find, rep);
      assert Replace(s, find, rep)[1..] == Replace(s[1..], find, rep);
    }
  }

  /** A second run of Replace can still find and rewrite text even when the
      replacement does not contain `find`: occurrences can be formed by the
      text around a removed one. */
  lemma ReplaceNotIdempotent()
    ensures Replace("aabb", "ab", "") == "ab"
    ensures Contains("ab", "ab") && Replace("ab", "ab", "") == ""
  {
    assert "aabb"[1..] == "abb";
    assert "abb"[2..] == "b";
    assert "ab"[2..] == "";
  }
}
