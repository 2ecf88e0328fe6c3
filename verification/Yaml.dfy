/** Parsed YAML as tools/releasepolicy/main.go queries it, and what a mapping means to a consumer. */
module Yaml {
  import opened Bytes

  /** A node. An alias carries the name of its anchor; keys may be any node. */
  datatype Node = Scalar(value: string) | Alias(value: string) | Sequence(items: seq<Node>) | Mapping(pairs: seq<Pair>)
  datatype Pair = Pair(key: Node, value: Node)

  /** The Value field of a node, which is empty for collections. */
  function Text(n: Node): string {
    if n.Scalar? || n.Alias? then n.value else ""
  }

  /** mapping on the pairs of a node: the first key with that text. */
  function Find(pairs: seq<Pair>, key: string): Option<Node> {
    if pairs == [] then None else if Text(pairs[0].key) == key then Some(pairs[0].value) else Find(pairs[1..], key)
  }

  function Lookup(n: Option<Node>, key: string): Option<Node> {
    if n.Some? && n.value.Mapping? then Find(n.value.pairs, key) else None
  }

  /** mapKeys, in document order. */
  function Keys(n: Option<Node>): seq<string> {
    if n.Some? && n.value.Mapping? then seq(|n.value.pairs|, i requires 0 <= i < |n.value.pairs| => Text(n.value.pairs[i].key)) else []
  }

  /** scalar: the text of a scalar, empty for anything else. */
  function ScalarText(n: Option<Node>): string {
    if n.Some? && n.value.Scalar? then n.value.value else ""
  }

  /** seqStrings */
  function SeqStrings(n: Option<Node>): seq<string> {
    if n.Some? && n.value.Sequence?
    then seq(|n.value.items|, i requires 0 <= i < |n.value.items| => ScalarText(Some(n.value.items[i])))
    else []
  }

  ghost predicate DistinctKeys(pairs: seq<Pair>) {
    forall i, j :: 0 <= i < j < |pairs| && pairs[i].key.Scalar? && pairs[j].key.Scalar? ==> pairs[i].key.value != pairs[j].key.value
  }

  /** No mapping inside repeats a scalar key. */
  ghost predicate NoDuplicates(n: Node) {
    match n
    case Mapping(pairs) => DistinctKeys(pairs) && forall i :: 0 <= i < |pairs| ==> NoDuplicates(pairs[i].value)
    case Sequence(items) => forall i :: 0 <= i < |items| ==> NoDuplicates(items[i])
    case _ => true
  }

  ghost predicate ScalarKeys(pairs: seq<Pair>) {
    forall i :: 0 <= i < |pairs| ==> pairs[i].key.Scalar?
  }

  /** Every mapping inside has scalar keys only. */
  ghost predicate ScalarKeyed(n: Node) {
    match n
    case Mapping(pairs) => ScalarKeys(pairs) && forall i :: 0 <= i < |pairs| ==> ScalarKeyed(pairs[i].value)
    case Sequence(items) => forall i :: 0 <= i < |items| ==> ScalarKeyed(items[i])
    case _ => true
  }

  /** A document that every consumer reads the same way. */
  ghost predicate Plain(n: Node) {
    NoDuplicates(n) && ScalarKeyed(n)
  }

  // ------------------------------------------------------- meaning

  /** What a consumer that lets later keys win makes of a mapping. */
  function Meaning(pairs: seq<Pair>): map<string, Node> {
    if pairs == [] then map[]
    else
      var last := pairs[|pairs| - 1];
      Meaning(pairs[..|pairs| - 1])[Text(last.key) := last.value]
  }

  function Field(n: Node, key: string): Option<Node> {
    if n.Mapping? && key in Meaning(n.pairs) then Some(Meaning(n.pairs)[key]) else None
  }

  lemma {:induction false} FindIndex(pairs: seq<Pair>, key: string) returns (i: nat)
    requires Find(pairs, key).Some?
    ensures i < |pairs| && Text(pairs[i].key) == key && Find(pairs, key) == Some(pairs[i].value)
  {
    if Text(pairs[0].key) == key {
      i := 0;
    } else {
      var j := FindIndex(pairs[1..], key);
      i := j + 1;
    }
  }

  lemma {:induction false} FindAbsent(pairs: seq<Pair>, key: string)
    ensures Find(pairs, key).None? <==> forall i :: 0 <= i < |pairs| ==> Text(pairs[i].key) != key
  {
    if pairs != [] {
      FindAbsent(pairs[1..], key);
      if Find(pairs, key).None? {
        forall i | 0 <= i < |pairs| ensures Text(pairs[i].key) != key {
          if i > 0 { assert pairs[i] == pairs[1..][i - 1]; }
        }
      }
    }
  }

  lemma {:induction false} MeaningKeys(pairs: seq<Pair>, key: string)
    ensures key in Meaning(pairs) <==> exists i :: 0 <= i < |pairs| && Text(pairs[i].key) == key
  {
    if pairs != [] {
      var n := |pairs| - 1;
      MeaningKeys(pairs[..n], key);
      if key in Meaning(pairs[..n]) {
        var i :| 0 <= i < n && Text(pairs[..n][i].key) == key;
        assert Text(pairs[i].key) == key;
      }
      if exists i :: 0 <= i < |pairs| && Text(pairs[i].key) == key {
        var i :| 0 <= i < |pairs| && Text(pairs[i].key) == key;
        if i < n { assert pairs[..n][i] == pairs[i]; }
      }
    }
  }

  lemma {:induction false} MeaningAt(pairs: seq<Pair>, i: nat)
    requires ScalarKeys(pairs) && DistinctKeys(pairs) && i < |pairs|
    ensures Text(pairs[i].key) in Meaning(pairs) && Meaning(pairs)[Text(pairs[i].key)] == pairs[i].value
  {
    var n := |pairs| - 1;
    if i < n {
      MeaningAt(pairs[..n], i);
      assert pairs[..n][i] == pairs[i];
      assert pairs[i].key.value != pairs[n].key.value;
    }
  }

  /** On a plain mapping the first match is the meaning, so the checker sees what every consumer sees. */
  lemma LookupIsField(n: Node, key: string)
    requires Plain(n)
    ensures Lookup(Some(n), key) == Field(n, key)
    ensures Lookup(Some(n), key).Some? ==> Plain(Lookup(Some(n), key).value)
  {
    if n.Mapping? {
      FindAbsent(n.pairs, key);
      MeaningKeys(n.pairs, key);
      if Find(n.pairs, key).Some? {
        var i := FindIndex(n.pairs, key);
        MeaningAt(n.pairs, i);
      }
    }
  }

  lemma KeysAreMeaning(n: Node, key: string)
    requires n.Mapping?
    ensures key in Keys(Some(n)) <==> key in Meaning(n.pairs)
    ensures key in Keys(Some(n)) <==> Lookup(Some(n), key).Some?
  {
    MeaningKeys(n.pairs, key);
    FindAbsent(n.pairs, key);
    if key in Meaning(n.pairs) {
      var i :| 0 <= i < |n.pairs| && Text(n.pairs[i].key) == key;
      assert Keys(Some(n))[i] == key;
    }
    if key in Keys(Some(n)) {
      var i :| 0 <= i < |Keys(Some(n))| && Keys(Some(n))[i] == key;
      assert Text(n.pairs[i].key) == key;
    }
  }

  /** A scalar key is its text, and a later pair replaces an earlier one with the same key. */
  lemma LastPair(pairs: seq<Pair>, key: string, value: Node, other: string)
    ensures var n := Mapping(pairs + [Pair(Scalar(key), value)]);
            Field(n, key) == Some(value) && (other != key ==> Field(n, other) == Field(Mapping(pairs), other))
  {
    var all := pairs + [Pair(Scalar(key), value)];
    assert all[..|pairs|] == pairs;
  }

  /** The checker takes an alias key for the name of its anchor, and a collection key for the empty text. */
  lemma OtherKeys(anchor: string, items: seq<Node>, value: Node)
    ensures Lookup(Some(Mapping([Pair(Alias(anchor), value)])), anchor) == Some(value)
    ensures Lookup(Some(Mapping([Pair(Sequence(items), value)])), "") == Some(value)
  {
  }

  /** The texts of a sequence: that of each scalar item, and nothing for any other. */
  lemma SeqStringsAt(items: seq<Node>, i: nat)
    requires i < |items|
    ensures |SeqStrings(Some(Sequence(items)))| == |items|
    ensures SeqStrings(Some(Sequence(items)))[i] == match items[i] case Scalar(text) => text case _ => ""
  {
  }

  /** A node that is a mapping from names to texts. */
  ghost predicate IsTextMap(n: Node, m: map<string, string>) {
    n.Mapping? && Meaning(n.pairs).Keys == m.Keys && forall k :: k in m ==> Meaning(n.pairs)[k] == Scalar(m[k])
  }
}
