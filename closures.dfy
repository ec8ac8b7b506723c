/**
 * `transformWords(using:)` of the Closures page: split a string into
 * words at the space character, transform each word with a caller-supplied
 * function, and join the results with single spaces.
 */
module Closures {

  /** Length of the longest prefix of `s` that holds no space. */
  function WordLength(s: string): (n: nat)
    ensures n <= |s|
    ensures forall i :: 0 <= i < n ==> s[i] != ' '
    ensures n < |s| ==> s[n] == ' '
  {
    if s == [] || s[0] == ' ' then 0 else 1 + WordLength(s[1..])
  }

  /** A piece that `split(separator: " ")` can produce: non-empty, no space. */
  predicate IsWord(w: string) {
    w != [] && ' ' !in w
  }

  /** `s` holds nothing but spaces (or nothing at all). */
  predicate AllSpaces(s: string) {
    forall i :: 0 <= i < |s| ==> s[i] == ' '
  }

  /** `split(separator: " ")` with its default of omitting empty pieces:
      the maximal runs of non-space characters of `s`, in order. */
  function Split(s: string): (words: seq<string>)
    decreases |s|
    ensures forall i :: 0 <= i < |words| ==> IsWord(words[i])
    ensures words == [] <==> AllSpaces(s)
  {
    if s == [] then []
    else if s[0] == ' ' then Split(s[1..])
    else
      var n := WordLength(s);
      [s[..n]] + Split(s[n..])
  }

  /** `joined(separator: " ")`: no pieces give the empty string, and the
      first piece is followed by a separator when more pieces follow. */
  function Join(ws: seq<string>): (r: string)
    ensures ws == [] ==> r == ""
    ensures ws != [] ==> ws[0] <= r
    ensures |ws| > 1 ==> |r| > |ws[0]| && r[|ws[0]|] == ' '
  {
    if ws == [] then ""
    else if |ws| == 1 then ws[0]
    else ws[0] + " " + Join(ws[1..])
  }

  /** The `results` of the loop: `f` applied to each word, in order. */
  function MapWords(f: string -> string, ws: seq<string>): (rs: seq<string>)
    ensures |rs| == |ws|
    ensures forall i :: 0 <= i < |ws| ==> rs[i] == f(ws[i])
  {
    if ws == [] then [] else [f(ws[0])] + MapWords(f, ws[1..])
  }

  /** What `transformWords(using: f)` returns for `s`. */
  function Transformed(s: string, f: string -> string): string {
    Join(MapWords(f, Split(s)))
  }

  /** `transformWords(using:)`: the loop that fills `results`, then the join. */
  method TransformWords(s: string, f: string -> string) returns (r: string)
    ensures r == Transformed(s, f)
    ensures AllSpaces(s) ==> r == ""
  {
    var words := Split(s);
    var results: seq<string> := [];
    for i := 0 to |words|
      invariant |results| == i
      invariant forall j :: 0 <= j < i ==> results[j] == f(words[j])
    {
      results := results + [f(words[i])];
    }
    assert results == MapWords(f, words);
    r := Join(results);
  }

  /** A string is in canonical form when it has no leading or trailing
      space and no two adjacent spaces. */
  ghost predicate Canonical(s: string) {
    && (s != [] ==> s[0] != ' ' && s[|s| - 1] != ' ')
    // No two adjacent spaces; `j` is bound apart from `i` so that the
    // quantifier's trigger does not feed itself (a matching loop).
    && forall i, j :: 0 <= i < j < |s| && j == i + 1 ==> s[i] != ' ' || s[j] != ' '
  }

  /** A word followed by the end or by a space is split off first. */
  lemma SplitWordPrefix(w: string, rest: string)
    requires IsWord(w)
    requires rest == [] || rest[0] == ' '
    ensures Split(w + rest) == [w] + Split(rest)
  {
    WordLengthOfWord(w, rest);
    assert (w + rest)[..|w|] == w;
    assert (w + rest)[|w|..] == rest;
  }

  /** A space-free prefix followed by the end or a space is the first word. */
  lemma {:induction false} WordLengthOfWord(w: string, rest: string)
    requires ' ' !in w
    requires rest == [] || rest[0] == ' '
    ensures WordLength(w + rest) == |w|
    decreases |w|
  {
    if w == [] {
      assert w + rest == rest;
    } else {
      assert (w + rest)[1..] == w[1..] + rest;
      WordLengthOfWord(w[1..], rest);
    }
  }

  /** Splitting undoes joining, for words that `split` can produce. */
  lemma {:induction false} SplitJoin(ws: seq<string>)
    requires forall i :: 0 <= i < |ws| ==> IsWord(ws[i])
    ensures Split(Join(ws)) == ws
  {
    if |ws| == 1 {
      SplitWordPrefix(ws[0], "");
      assert ws[0] + "" == ws[0];
    } else if |ws| > 1 {
      SplitJoin(ws[1..]);
      SplitWordPrefix(ws[0], " " + Join(ws[1..]));
      assert ws[0] + " " + Join(ws[1..]) == ws[0] + (" " + Join(ws[1..]));
      assert (" " + Join(ws[1..]))[1..] == Join(ws[1..]);
      assert ws == [ws[0]] + ws[1..];
    }
  }

  /** Joining words that `split` can produce gives a canonical string. */
  lemma {:induction false} JoinIsCanonical(ws: seq<string>)
    requires forall i :: 0 <= i < |ws| ==> IsWord(ws[i])
    ensures Canonical(Join(ws))
    ensures ws != [] ==> Join(ws) != [] && Join(ws)[0] == ws[0][0]
  {
    if |ws| > 1 {
      JoinIsCanonical(ws[1..]);
      var w, j := ws[0], Join(ws[1..]);
      var s := w + " " + j;
      assert s == Join(ws);
      assert ' ' !in w;
      forall i, k | 0 <= i && k == i + 1 && k < |s|
        ensures s[i] != ' ' || s[k] != ' '
      {
        if i < |w| {
          assert s[i] == w[i];
        } else if i == |w| {
          assert s[i + 1] == j[0];
        } else {
          assert s[i] == j[i - |w| - 1] && s[i + 1] == j[i - |w|];
        }
      }
    }
  }

  /** The part of a canonical string after one of its spaces is itself
      canonical and starts with a word. */
  lemma CanonicalAfterSpace(s: string, n: nat)
    requires Canonical(s) && n < |s| && s[n] == ' '
    ensures Canonical(s[n + 1..]) && !AllSpaces(s[n + 1..])
  {
    var rest := s[n + 1..];
    assert rest[0] == s[n + 1];
    forall i, k | 0 <= i && k == i + 1 && k < |rest|
      ensures rest[i] != ' ' || rest[k] != ' '
    {
      assert rest[i] == s[n + 1 + i] && rest[i + 1] == s[n + 2 + i];
    }
  }

  /** A string that starts with a word followed by a space splits into
      that word and the words after the space. */
  lemma SplitAtFirstSpace(s: string, n: nat)
    requires s != [] && s[0] != ' ' && n == WordLength(s) && n < |s|
    ensures Split(s) == [s[..n]] + Split(s[n + 1..])
  {
    assert s[n..][1..] == s[n + 1..];
  }

  /** A longer suffix does not change where the first space is, once
      there is one. */
  lemma {:induction false} WordLengthExtend(a: string, x: string)
    requires WordLength(a) < |a|
    ensures WordLength(a + x) == WordLength(a)
    decreases |a|
  {
    if a[0] != ' ' {
      assert (a + x)[1..] == a[1..] + x;
      WordLengthExtend(a[1..], x);
    }
  }

  /** Every space separates words: splitting around one space gives the
      words before it followed by the words after it, so leading,
      trailing and repeated spaces produce no pieces. */
  lemma {:induction false} SplitAtSpace(a: string, b: string)
    ensures Split(a + " " + b) == Split(a) + Split(b)
    decreases |a|
  {
    var s := a + " " + b;
    if a == [] {
      assert s == " " + b && s[1..] == b;
    } else if a[0] == ' ' {
      assert s[1..] == a[1..] + " " + b;
      SplitAtSpace(a[1..], b);
    } else {
      var n := WordLength(a);
      if n < |a| {
        WordLengthExtend(a, " " + b);
        assert a + " " + b == a + (" " + b);
        assert s[..n] == a[..n];
        assert s[n..] == a[n..] + " " + b;
        SplitAtSpace(a[n..], b);
      } else {
        assert a[..n] == a && a[n..] == [];
        SplitWordPrefix(a, " " + b);
        assert s == a + (" " + b);
        assert (" " + b)[1..] == b;
      }
    }
  }

  /** Joining a word in front of at least one other piece puts one space
      after it. */
  lemma JoinCons(w: string, ws: seq<string>)
    requires ws != []
    ensures Join([w] + ws) == w + " " + Join(ws)
  {
    assert ([w] + ws)[1..] == ws;
  }

  /** A string is the part before one of its spaces, that space, and the part after. */
  lemma SpaceSplitsString(s: string, n: nat)
    requires n < |s| && s[n] == ' '
    ensures s == s[..n] + " " + s[n + 1..]
  {
    assert s == s[..n] + [s[n]] + s[n + 1..];
  }

  /** A canonical string is the join of its own words. */
  lemma {:induction false} CanonicalIsJoinOfSplit(s: string)
    requires Canonical(s)
    ensures Join(Split(s)) == s
    decreases |s|
  {
    if s != [] {
      var n := WordLength(s);
      if n == |s| {
        assert s[..n] == s && s[n..] == [];
        assert Split(s) == [s];
      } else {
        var rest := s[n + 1..];
        CanonicalAfterSpace(s, n);
        CanonicalIsJoinOfSplit(rest);
        SplitAtFirstSpace(s, n);
        JoinCons(s[..n], Split(rest));
        SpaceSplitsString(s, n);
      }
    }
  }

  /** The words laid end to end. */
  function Concat(ws: seq<string>): string {
    if ws == [] then "" else ws[0] + Concat(ws[1..])
  }

  /** The characters of `s` other than spaces, in order. */
  function NonSpaces(s: string): string {
    if s == [] then "" else (if s[0] == ' ' then "" else [s[0]]) + NonSpaces(s[1..])
  }

  /** Dropping spaces distributes over concatenation. */
  lemma {:induction false} NonSpacesAppend(a: string, b: string)
    ensures NonSpaces(a + b) == NonSpaces(a) + NonSpaces(b)
    decreases |a|
  {
    if a == [] {
      assert a + b == b;
    } else {
      assert (a + b)[0] == a[0] && (a + b)[1..] == a[1..] + b;
      NonSpacesAppend(a[1..], b);
    }
  }

  /** Dropping spaces leaves a space-free string unchanged. */
  lemma {:induction false} NonSpacesOfSpaceFree(w: string)
    requires ' ' !in w
    ensures NonSpaces(w) == w
    decreases |w|
  {
    if w != [] {
      NonSpacesOfSpaceFree(w[1..]);
      assert w == [w[0]] + w[1..];
    }
  }

  /** Splitting drops exactly the spaces: the words hold every other
      character of `s`, in order. */
  lemma {:induction false} SplitKeepsNonSpaces(s: string)
    ensures Concat(Split(s)) == NonSpaces(s)
    decreases |s|
  {
    if s != [] {
      if s[0] == ' ' {
        SplitKeepsNonSpaces(s[1..]);
      } else {
        var n := WordLength(s);
        SplitKeepsNonSpaces(s[n..]);
        assert s == s[..n] + s[n..];
        NonSpacesAppend(s[..n], s[n..]);
        NonSpacesOfSpaceFree(s[..n]);
        assert Split(s) == [s[..n]] + Split(s[n..]);
        assert ([s[..n]] + Split(s[n..]))[1..] == Split(s[n..]);
      }
    }
  }

  /** With the identity, `transformWords` trims the leading and trailing
      spaces and collapses each run of spaces to one: the result is
      canonical and has the same words, in the same order, as `s`. */
  lemma IdentityNormalizes(s: string)
    ensures Canonical(Transformed(s, w => w))
    ensures Split(Transformed(s, w => w)) == Split(s)
  {
    MapIdentity(Split(s));
    JoinIsCanonical(Split(s));
    SplitJoin(Split(s));
  }

  /** With the identity, a canonical string comes back unchanged. */
  lemma IdentityKeepsCanonical(s: string)
    requires Canonical(s)
    ensures Transformed(s, w => w) == s
  {
    MapIdentity(Split(s));
    CanonicalIsJoinOfSplit(s);
  }

  /** The identity closure leaves every word as it is. */
  lemma MapIdentity(ws: seq<string>)
    ensures MapWords(w => w, ws) == ws
  {
  }

  /** The sum of the lengths of `ws`. */
  function TotalLength(ws: seq<string>): nat {
    if ws == [] then 0 else |ws[0]| + TotalLength(ws[1..])
  }

  /** `n` pieces joined with `n - 1` single-space separators. */
  lemma {:induction false} JoinLength(ws: seq<string>)
    requires ws != []
    ensures |Join(ws)| == TotalLength(ws) + |ws| - 1
  {
    if |ws| > 1 {
      JoinLength(ws[1..]);
    }
  }

  /** For `n >= 1` words the result is the transformed words plus `n - 1` spaces. */
  lemma TransformedLength(s: string, f: string -> string)
    requires !AllSpaces(s)
    ensures |Transformed(s, f)| == TotalLength(MapWords(f, Split(s))) + |Split(s)| - 1
  {
    JoinLength(MapWords(f, Split(s)));
  }
}
