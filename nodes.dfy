/**
 * Graph-vertex identity of node.py: a symbol name and the file that owns it,
 * written as one string `name|uri` and read back by splitting on `|`.
 */
module Nodes {
  import opened Wrappers
  import opened Strings

  const Delimiter: char := '|'

  /** The constructor keeps both arguments as they are; the fields are never reassigned. */
  datatype Node = Node(name: string, uri: string)

  /** `str(node)`: the name, the delimiter, then the uri. */
  function ToString(n: Node): (s: string)
    ensures |s| == |n.name| + |n.uri| + 1
    ensures s[..|n.name|] == n.name && s[|n.name|] == Delimiter && s[|n.name| + 1..] == n.uri
  {
    n.name + [Delimiter] + n.uri
  }

  /**
   * `from_string(s)`: the pieces of `s` between pipes become the constructor's
   * arguments. The constructor takes exactly two, so any other number of pieces
   * is a failed construction (None). On success the node prints back as `s`,
   * so its name is the text before the only pipe and its uri the text after.
   */
  function FromString(s: string): (r: Option<Node>)
    ensures r.Some? <==> Occurrences({Delimiter}, s) == 1
    ensures r.Some? ==> ToString(r.value) == s
    ensures r.Some? ==> Avoids(r.value.name, {Delimiter}) && Avoids(r.value.uri, {Delimiter})
  {
    var parts := Split(s, {Delimiter});
    if |parts| == 2 then
      SplitThenJoin(s, Delimiter);
      assert Join([Delimiter], parts) == parts[0] + [Delimiter] + parts[1];
      Some(Node(parts[0], parts[1]))
    else
      None
  }

  /** Printing then parsing gives back the node when neither field holds a pipe. */
  lemma RoundTrip(n: Node)
    requires Avoids(n.name, {Delimiter}) && Avoids(n.uri, {Delimiter})
    ensures FromString(ToString(n)) == Some(n)
  {
    var parts := [n.name, n.uri];
    JoinThenSplit(parts, Delimiter);
    assert Join([Delimiter], parts) == ToString(n);
  }

  /** A pipe inside either field makes the printed form unparseable: identity is lost. */
  lemma PipeInFieldBreaksRoundTrip(n: Node)
    requires !Avoids(n.name, {Delimiter}) || !Avoids(n.uri, {Delimiter})
    ensures FromString(ToString(n)) == None
  {
    OccurrencesAppend({Delimiter}, n.name + [Delimiter], n.uri);
    OccurrencesAppend({Delimiter}, n.name, [Delimiter]);
    AvoidsIffNoOccurrences(n.name, {Delimiter});
    AvoidsIffNoOccurrences(n.uri, {Delimiter});
  }

  /**
   * Pipe-free nodes print to different strings exactly when they differ, so two
   * symbols of the same name owned by different files stay distinct keys.
   */
  lemma ToStringInjective(a: Node, b: Node)
    requires Avoids(a.name, {Delimiter}) && Avoids(a.uri, {Delimiter})
    requires Avoids(b.name, {Delimiter}) && Avoids(b.uri, {Delimiter})
    ensures ToString(a) == ToString(b) <==> a == b
  {
    RoundTrip(a);
    RoundTrip(b);
  }
}
