/** Python string operations used by the resolver: `sub in s`,
    `s.split(sep)` with a non-empty separator, single-character
    `s.replace(a, b)` and the last `/`-delimited segment. `sep.join(parts)`
    is here only as the inverse of `split` that `JoinSplit` states. */
module Text {

  /** `sub in s`: some occurrence of `sub` starts in `s`. */
  predicate Contains(s: string, sub: string)
    decreases |s|
  {
    |sub| <= |s| && (s[..|sub|] == sub || Contains(s[1..], sub))
  }

  /** `sub` occurs in `s` starting at index `i`. */
  predicate OccursAt(s: string, sub: string, i: int)
  {
    0 <= i <= |s| - |sub| && s[i..i + |sub|] == sub
  }

  /** `Contains` holds exactly when `sub` occurs at some index of `s`. */
  lemma {:induction false} ContainsOccurrence(s: string, sub: string)
    ensures Contains(s, sub) <==> exists i :: OccursAt(s, sub, i)
    decreases |s|
  {
    if |sub| <= |s| {
      if s[..|sub|] == sub {
        assert OccursAt(s, sub, 0);
      } else {
        ContainsOccurrence(s[1..], sub);
        if Contains(s[1..], sub) {
          var i :| OccursAt(s[1..], sub, i);
          assert s[i + 1..i + 1 + |sub|] == s[1..][i..i + |sub|];
          assert OccursAt(s, sub, i + 1);
        } else {
          forall i | 0 <= i <= |s| - |sub|
            ensures !OccursAt(s, sub, i)
          {
            if i > 0 {
              assert s[1..][i - 1..i - 1 + |sub|] == s[i..i + |sub|];
              assert !OccursAt(s[1..], sub, i - 1);
            }
          }
        }
      }
    }
  }

  /** `s.split(sep)`: cut at every occurrence of `sep`, found greedily from the left. */
  function Split(s: string, sep: string): (parts: seq<string>)
    requires |sep| > 0
    ensures |parts| >= 1
    decreases |s|
  {
    if |s| < |sep| then [s]
    else if s[..|sep|] == sep then [""] + Split(s[|sep|..], sep)
    else
      var rest := Split(s[1..], sep);
      [[s[0]] + rest[0]] + rest[1..]
  }

  /** `sep.join(parts)`. */
  function Join(parts: seq<string>, sep: string): string
    requires |parts| >= 1
  {
    if |parts| == 1 then parts[0] else parts[0] + sep + Join(parts[1..], sep)
  }

  function Last<T>(s: seq<T>): T
    requires |s| > 0
  {
    s[|s| - 1]
  }

  /** Number of occurrences of `c` in `s`. */
  function Count(s: string, c: char): nat
  {
    if s == [] then 0 else (if s[0] == c then 1 else 0) + Count(s[1..], c)
  }

  /** `s.replace(a, b)` for one-character `a` and `b`. */
  function ReplaceChar(s: string, a: char, b: char): (r: string)
    ensures |r| == |s|
    ensures forall i :: 0 <= i < |s| ==> r[i] == (if s[i] == a then b else s[i])
    ensures a != b ==> a !in r
  {
    if s == [] then [] else [if s[0] == a then b else s[0]] + ReplaceChar(s[1..], a, b)
  }

  /** `s.split("/")[-1]`: what follows the last `/`, or all of `s` when it has none. */
  function LastSegment(s: string): (r: string)
    ensures '/' !in r
    ensures |r| <= |s| && s[|s| - |r|..] == r
    ensures |r| == |s| || s[|s| - |r| - 1] == '/'
  {
    LastPartFacts(s, '/');
    Last(Split(s, "/"))
  }

  // ---------------------------------------------------------------------------
  // Split and Join

  /** Joining the pieces of a split with the same separator gives back the input. */
  lemma {:induction false} JoinSplit(s: string, sep: string)
    requires |sep| > 0
    ensures Join(Split(s, sep), sep) == s
    decreases |s|
  {
    if |s| < |sep| {
    } else if s[..|sep|] == sep {
      JoinSplit(s[|sep|..], sep);
      JoinCons("", Split(s[|sep|..], sep), sep);
      assert s == sep + s[|sep|..];
    } else {
      JoinSplit(s[1..], sep);
      JoinPrepend(s[0], Split(s[1..], sep), sep);
      assert s == [s[0]] + s[1..];
    }
  }

  lemma JoinCons(x: string, rest: seq<string>, sep: string)
    requires |rest| >= 1
    ensures Join([x] + rest, sep) == x + sep + Join(rest, sep)
  {
    assert ([x] + rest)[1..] == rest;
  }

  /** Putting a character in front of the first piece puts it in front of the join. */
  lemma JoinPrepend(c: char, rest: seq<string>, sep: string)
    requires |rest| >= 1
    ensures Join([[c] + rest[0]] + rest[1..], sep) == [c] + Join(rest, sep)
  {
    if |rest| > 1 {
      JoinCons([c] + rest[0], rest[1..], sep);
      JoinCons(rest[0], rest[1..], sep);
      assert rest == [rest[0]] + rest[1..];
    }
  }

  /** A split yields one piece exactly when the separator does not occur. */
  lemma {:induction false} SplitSingle(s: string, sep: string)
    requires |sep| > 0
    ensures |Split(s, sep)| == 1 <==> !Contains(s, sep)
    ensures !Contains(s, sep) ==> Split(s, sep) == [s]
    decreases |s|
  {
    if |s| < |sep| {
    } else if s[..|sep|] == sep {
    } else {
      SplitSingle(s[1..], sep);
      if !Contains(s[1..], sep) {
        assert [s[0]] + s[1..] == s;
      }
    }
  }

  /** The last piece of a split never contains the separator. */
  lemma {:induction false} LastPieceFree(s: string, sep: string)
    requires |sep| > 0
    ensures !Contains(Last(Split(s, sep)), sep)
    decreases |s|
  {
    if |s| < |sep| {
    } else if s[..|sep|] == sep {
      LastPieceFree(s[|sep|..], sep);
    } else {
      var rest := Split(s[1..], sep);
      LastPieceFree(s[1..], sep);
      if |rest| == 1 {
        SplitSingle(s[1..], sep);
        assert [s[0]] + rest[0] == s;
      }
    }
  }

  /** Joining with a last piece split off. */
  lemma {:induction false} JoinSnoc(parts: seq<string>, sep: string)
    requires |parts| >= 2
    ensures Join(parts, sep) == Join(parts[..|parts| - 1], sep) + sep + Last(parts)
    decreases |parts|
  {
    if |parts| > 2 {
      JoinSnoc(parts[1..], sep);
      assert parts[1..][..|parts| - 2] == parts[..|parts| - 1][1..];
    }
  }

  /** With a one-character separator every piece is free of it, and there is
      one piece more than there are separators. */
  lemma {:induction false} SplitCharFacts(s: string, c: char)
    ensures |Split(s, [c])| == Count(s, c) + 1
    ensures forall k :: 0 <= k < |Split(s, [c])| ==> c !in Split(s, [c])[k]
    decreases |s|
  {
    if |s| == 0 {
    } else {
      SplitCharFacts(s[1..], c);
      assert s[..1] == [s[0]];
      if s[0] != c {
        var rest := Split(s[1..], [c]);
        assert forall k :: 1 <= k < |Split(s, [c])| ==> Split(s, [c])[k] == rest[k];
      }
    }
  }

  lemma LastPartFacts(s: string, c: char)
    ensures c !in Last(Split(s, [c]))
    ensures |Last(Split(s, [c]))| <= |s| && s[|s| - |Last(Split(s, [c]))|..] == Last(Split(s, [c]))
    ensures |Last(Split(s, [c]))| == |s| || s[|s| - |Last(Split(s, [c]))| - 1] == c
  {
    var parts := Split(s, [c]);
    SplitCharFacts(s, c);
    JoinSplit(s, [c]);
    if |parts| >= 2 {
      JoinSnoc(parts, [c]);
      var front := Join(parts[..|parts| - 1], [c]);
      assert s == front + [c] + Last(parts);
      assert s[|s| - |Last(parts)|..] == Last(parts);
    } else {
      assert s == Last(parts);
    }
  }

  /** The first piece of `x + [c] + y` is `x` when `x` has no `c`. */
  lemma {:induction false} SplitCharFront(x: string, c: char, y: string)
    requires c !in x
    ensures Split(x + [c] + y, [c]) == [x] + Split(y, [c])
    decreases |x|
  {
    var s := x + [c] + y;
    if x == [] {
      assert s[..1] == [c];
      assert s[1..] == y;
    } else {
      assert s[..1] == [x[0]];
      assert s[1..] == x[1..] + [c] + y;
      SplitCharFront(x[1..], c, y);
      assert [x[0]] + x[1..] == x;
    }
  }

  /** The last segment after a `/` that is followed by no other `/`. */
  lemma LastSegmentAfter(x: string, y: string)
    requires '/' !in y
    ensures LastSegment(x + "/" + y) == y
  {
    var s := x + "/" + y;
    var r := LastSegment(s);
    assert s[|s| - |y| - 1] == '/';
    assert forall i :: |s| - |y| <= i < |s| ==> s[i] == y[i - (|s| - |y|)];
    assert |r| == |y|;
    assert r == s[|s| - |y|..] == y;
  }

  // ---------------------------------------------------------------------------
  // The last piece after a separator that cannot overlap itself

  /** No proper suffix of `sep` is also a prefix of it, so two occurrences
      of `sep` can never overlap. */
  predicate NoSelfOverlap(sep: string)
  {
    forall k :: 0 < k < |sep| ==> sep[k..] != sep[..|sep| - k]
  }

  /** Two occurrences of `sep` that start less than `|sep|` apart force a
      proper suffix of `sep` to equal a prefix of it. */
  lemma OverlapGivesBorder(p: string, sep: string, rest: string)
    requires 0 < |p| < |sep|
    requires (p + sep + rest)[..|sep|] == sep
    ensures sep[|p|..] == sep[..|sep| - |p|]
  {
    var s := p + sep + rest;
    var k := |p|;
    forall i | 0 <= i < |sep| - k
      ensures sep[k..][i] == sep[..|sep| - k][i]
    {
      assert s[k + i] == s[..|sep|][k + i] == sep[k + i];
      assert s[k + i] == sep[i];
    }
  }

  /** Whatever comes before it, the last piece of `p + sep + rest` is `rest`
      when `rest` holds no further `sep`. */
  lemma {:induction false} LastPieceAfter(p: string, sep: string, rest: string)
    requires |sep| > 0 && NoSelfOverlap(sep)
    requires !Contains(rest, sep)
    ensures Last(Split(p + sep + rest, sep)) == rest
    decreases |p|
  {
    var s := p + sep + rest;
    if |p| == 0 {
      assert s[..|sep|] == sep;
      assert s[|sep|..] == rest;
      SplitSingle(rest, sep);
    } else if s[..|sep|] == sep {
      if |p| < |sep| {
        OverlapGivesBorder(p, sep, rest);
        assert false;
      }
      assert s[|sep|..] == p[|sep|..] + sep + rest;
      LastPieceAfter(p[|sep|..], sep, rest);
    } else {
      assert s[1..] == p[1..] + sep + rest;
      LastPieceAfter(p[1..], sep, rest);
      SplitSingle(s[1..], sep);
      assert Contains(s[1..], sep) by {
        ContainsAt(p[1..], sep, rest);
      }
    }
  }

  /** `sep in p + sep + rest`. */
  lemma {:induction false} ContainsAt(p: string, sep: string, rest: string)
    ensures Contains(p + sep + rest, sep)
    decreases |p|
  {
    var s := p + sep + rest;
    if |p| == 0 {
      assert s[..|sep|] == sep;
    } else {
      assert s[1..] == p[1..] + sep + rest;
      ContainsAt(p[1..], sep, rest);
    }
  }

  /** When `sep` occurs, `s` is what precedes its last cut, `sep`, and the
      last piece, which holds no `sep`. */
  lemma SplitAtLast(s: string, sep: string) returns (prefix: string, last: string)
    requires |sep| > 0 && Contains(s, sep)
    ensures last == Last(Split(s, sep)) && !Contains(last, sep)
    ensures s == prefix + sep + last
  {
    var pieces := Split(s, sep);
    SplitSingle(s, sep);
    JoinSplit(s, sep);
    JoinSnoc(pieces, sep);
    LastPieceFree(s, sep);
    prefix, last := Join(pieces[..|pieces| - 1], sep), Last(pieces);
  }

  /** A string that lacks some character of `sub` does not contain `sub`. */
  lemma {:induction false} MissingCharNotContained(s: string, sub: string, i: nat)
    requires i < |sub| && sub[i] !in s
    ensures !Contains(s, sub)
  {
    if |sub| <= |s| {
      assert s[..|sub|] != sub by {
        assert s[i] == s[..|sub|][i];
      }
      MissingCharNotContained(s[1..], sub, i);
    }
  }
}
