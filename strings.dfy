/**
 * The few pieces of Python's string and list semantics the scripts rely on:
 * splitting on single delimiter characters (`str.split` with a one-character
 * separator and `re.split` with a one-character class), `sep.join(parts)`
 * and clamping slices `s[k:]`, `s[:k]`.
 */
module Strings {

  /** No character of `s` belongs to `cs`. */
  predicate Avoids(s: string, cs: set<char>)
  {
    forall k :: 0 <= k < |s| ==> s[k] !in cs
  }

  /** How many characters of `s` belong to `cs`. */
  function Occurrences(cs: set<char>, s: string): nat
  {
    if s == [] then 0 else (if s[0] in cs then 1 else 0) + Occurrences(cs, s[1..])
  }

  /** The characters of `s` that are not in `cs`, in order. */
  function Kept(s: string, cs: set<char>): string
  {
    if s == [] then [] else (if s[0] in cs then [] else [s[0]]) + Kept(s[1..], cs)
  }

  /** All parts glued together with nothing in between. */
  function Concat(parts: seq<string>): string
  {
    if parts == [] then [] else parts[0] + Concat(parts[1..])
  }

  /** Python's `s[k:]`: a start past the end gives the empty string. */
  function Drop(s: string, k: nat): string
  {
    if k <= |s| then s[k..] else []
  }

  /** Python's `s[:k]`: an end past the end gives the whole string. */
  function Take(s: string, k: nat): string
  {
    if k <= |s| then s[..k] else s
  }

  /** The characters of `s` that belong to `cs`, in order. */
  function Delims(s: string, cs: set<char>): (ds: string)
    ensures |ds| == Occurrences(cs, s)
  {
    if s == [] then [] else (if s[0] in cs then [s[0]] else []) + Delims(s[1..], cs)
  }

  /** `parts[0] + [ds[0]] + parts[1] + ... + [ds[n-1]] + parts[n]`. */
  function Interleave(parts: seq<string>, ds: string): string
    requires |parts| == |ds| + 1
  {
    if ds == [] then parts[0] else parts[0] + [ds[0]] + Interleave(parts[1..], ds[1..])
  }

  /**
   * The pieces of `s` between delimiter characters, as Python's `split` with a
   * one-character separator and `re.split` with a one-character class give
   * them: adjacent delimiters produce empty pieces, and there is always one
   * piece more than there are delimiters.
   */
  function Split(s: string, cs: set<char>): (parts: seq<string>)
    ensures |parts| == Occurrences(cs, s) + 1
    ensures forall i :: 0 <= i < |parts| ==> Avoids(parts[i], cs)
    decreases |s|
  {
    if s == [] then [[]]
    else
      var rest := Split(s[1..], cs);
      if s[0] in cs then [[]] + rest
      else [[s[0]] + rest[0]] + rest[1..]
  }

  /**
   * The split cuts exactly at the delimiters: putting the delimiters of `s`
   * back, in order, between consecutive pieces gives `s`.
   */
  lemma {:induction false} SplitInterleavesDelimiters(s: string, cs: set<char>)
    ensures Interleave(Split(s, cs), Delims(s, cs)) == s
    decreases |s|
  {
    if s != [] {
      var rest := Split(s[1..], cs);
      SplitInterleavesDelimiters(s[1..], cs);
      if s[0] in cs {
        assert ([[]] + rest)[1..] == rest;
      } else {
        assert Delims(s, cs) == [] + Delims(s[1..], cs) == Delims(s[1..], cs);
        InterleaveFirst([s[0]], rest, Delims(s[1..], cs));
        assert [s[0]] + s[1..] == s;
      }
    }
  }

  /** Gluing a prefix onto the first part glues it onto the interleaving. */
  lemma InterleaveFirst(p: string, parts: seq<string>, ds: string)
    requires |parts| == |ds| + 1
    ensures Interleave([p + parts[0]] + parts[1..], ds) == p + Interleave(parts, ds)
  {
    var glued := [p + parts[0]] + parts[1..];
    assert glued[1..] == parts[1..];
  }

  /** With a single delimiter character, interleaving is joining. */
  lemma {:induction false} InterleaveIsJoin(parts: seq<string>, ds: string, c: char)
    requires |parts| == |ds| + 1
    requires forall i :: 0 <= i < |ds| ==> ds[i] == c
    ensures Interleave(parts, ds) == Join([c], parts)
    decreases |ds|
  {
    if ds != [] {
      InterleaveIsJoin(parts[1..], ds[1..], c);
    }
  }

  /** The delimiters found in `s` when the class holds one character. */
  lemma {:induction false} DelimsOfOne(s: string, c: char)
    ensures forall i :: 0 <= i < |Delims(s, {c})| ==> Delims(s, {c})[i] == c
    decreases |s|
  {
    if s != [] {
      DelimsOfOne(s[1..], c);
    }
  }

  /** Python's `sep.join(parts)`. */
  function Join(sep: string, parts: seq<string>): string
  {
    if |parts| == 0 then []
    else if |parts| == 1 then parts[0]
    else parts[0] + sep + Join(sep, parts[1..])
  }

  lemma {:induction false} OccurrencesAppend(cs: set<char>, a: string, b: string)
    ensures Occurrences(cs, a + b) == Occurrences(cs, a) + Occurrences(cs, b)
  {
    if a != [] {
      assert (a + b)[1..] == a[1..] + b;
      OccurrencesAppend(cs, a[1..], b);
    } else {
      assert a + b == b;
    }
  }

  /** A string avoids the delimiters exactly when it holds none of them. */
  lemma {:induction false} AvoidsIffNoOccurrences(s: string, cs: set<char>)
    ensures Avoids(s, cs) <==> Occurrences(cs, s) == 0
  {
    if s != [] {
      AvoidsIffNoOccurrences(s[1..], cs);
      assert Avoids(s, cs) <==> s[0] !in cs && Avoids(s[1..], cs);
    }
  }

  /** Dropping or taking characters keeps a string free of the delimiters. */
  lemma SlicesAvoid(s: string, k: nat, cs: set<char>)
    requires Avoids(s, cs)
    ensures Avoids(Drop(s, k), cs) && Avoids(Take(s, k), cs)
  {
  }

  /** The pieces, glued back together, are exactly the non-delimiter characters. */
  lemma {:induction false} SplitKeepsOtherCharacters(s: string, cs: set<char>)
    ensures Concat(Split(s, cs)) == Kept(s, cs)
    decreases |s|
  {
    if s != [] {
      var rest := Split(s[1..], cs);
      SplitKeepsOtherCharacters(s[1..], cs);
      if s[0] !in cs {
        calc {
          Concat(Split(s, cs));
          ([s[0]] + rest[0]) + Concat(rest[1..]);
          [s[0]] + (rest[0] + Concat(rest[1..]));
          [s[0]] + Concat(rest);
        }
      }
    }
  }

  /** Splitting a delimiter-free prefix onto a string extends that string's first piece. */
  lemma {:induction false} SplitFreePrefix(p: string, t: string, cs: set<char>)
    requires Avoids(p, cs)
    ensures Split(p + t, cs) == [p + Split(t, cs)[0]] + Split(t, cs)[1..]
    decreases |p|
  {
    if p != [] {
      assert (p + t)[1..] == p[1..] + t;
      SplitFreePrefix(p[1..], t, cs);
      assert [p[0]] + (p[1..] + Split(t, cs)[0]) == p + Split(t, cs)[0];
    } else {
      var parts := Split(t, cs);
      assert p + t == t && p + parts[0] == parts[0];
      assert [parts[0]] + parts[1..] == parts;
    }
  }

  /** Joining the pieces with their (single) delimiter gives back the string. */
  lemma SplitThenJoin(s: string, c: char)
    ensures Join([c], Split(s, {c})) == s
  {
    SplitInterleavesDelimiters(s, {c});
    DelimsOfOne(s, c);
    InterleaveIsJoin(Split(s, {c}), Delims(s, {c}), c);
  }

  /** Splitting a join of delimiter-free pieces gives back the pieces. */
  lemma {:induction false} JoinThenSplit(parts: seq<string>, c: char)
    requires |parts| >= 1
    requires forall i :: 0 <= i < |parts| ==> Avoids(parts[i], {c})
    ensures Split(Join([c], parts), {c}) == parts
  {
    if |parts| == 1 {
      SplitFreePrefix(parts[0], [], {c});
      assert parts[0] + [] == parts[0];
    } else {
      var tail := Join([c], parts[1..]);
      JoinThenSplit(parts[1..], c);
      assert Join([c], parts) == parts[0] + ([c] + tail);
      SplitFreePrefix(parts[0], [c] + tail, {c});
      assert ([c] + tail)[1..] == tail;
      assert Split([c] + tail, {c}) == [[]] + parts[1..];
      assert parts[0] + [] == parts[0];
    }
  }

  /** A join of delimiter-free pieces holds one delimiter between each two pieces and no other. */
  lemma JoinOccurrences(parts: seq<string>, c: char)
    requires |parts| >= 1
    requires forall i :: 0 <= i < |parts| ==> Avoids(parts[i], {c})
    ensures Occurrences({c}, Join([c], parts)) == |parts| - 1
  {
    JoinThenSplit(parts, c);
  }
}
