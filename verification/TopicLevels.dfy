/**
 Topic names and topic filters as lists of levels: the specification of section 4.7 of
 MQTT Version 5.0, independent of how the matcher walks its two strings.
 */
module TopicLevels {
  import opened Bytes

  /** The levels of a topic: the stretches between '/' characters. Always at least one. */
  function Split(s: bytes): (levels: seq<bytes>)
    ensures |levels| >= 1
  {
    if s == [] then [[]]
    else if s[0] == SLASH then [[]] + Split(s[1..])
    else var rest := Split(s[1..]); [[s[0]] + rest[0]] + rest[1..]
  }

  /** The inverse of Split. */
  function Join(levels: seq<bytes>): bytes
    requires |levels| >= 1
  {
    if |levels| == 1 then levels[0] else levels[0] + [SLASH] + Join(levels[1..])
  }

  predicate Plain(level: bytes) {
    PLUS !in level && HASH !in level
  }

  /** A wildcard fills its whole level, and '#' is the last one. */
  predicate LevelOk(levels: seq<bytes>, k: nat)
    requires k < |levels|
  {
    Plain(levels[k]) || levels[k] == [PLUS] || (levels[k] == [HASH] && k == |levels| - 1)
  }

  predicate WellFormedFilter(levels: seq<bytes>) {
    forall k :: 0 <= k < |levels| ==> LevelOk(levels, k)
  }

  /** Level-wise matching: '+' is one level, a final '#' any number of levels, even none. */
  predicate LevelsMatch(filter: seq<bytes>, topic: seq<bytes>) {
    if filter == [[HASH]] then true
    else if filter == [] || topic == [] then filter == topic
    else (filter[0] == [PLUS] || filter[0] == topic[0]) && LevelsMatch(filter[1..], topic[1..])
  }

  predicate DollarMismatch(filter: bytes, topic: bytes)
    requires filter != [] && topic != []
  {
    (filter[0] == DOLLAR) != (topic[0] == DOLLAR)
  }

  /** What section 4.7 asks of a filter and a topic name, both non-empty. */
  predicate Matches(filter: bytes, topic: bytes)
    requires filter != [] && topic != []
  {
    !DollarMismatch(filter, topic) && LevelsMatch(Split(filter), Split(topic))
  }

  lemma JoinCons(c: byte, first: bytes, rest: seq<bytes>)
    ensures Join([[c] + first] + rest) == [c] + Join([first] + rest)
  {
    var long, short := [[c] + first] + rest, [first] + rest;
    assert long[0] == [c] + first && long[1..] == rest;
    assert short[0] == first && short[1..] == rest;
  }

  lemma SplitCons(c: byte, s: bytes)
    ensures c == SLASH ==> Split([c] + s) == [[]] + Split(s)
    ensures c != SLASH ==> Split([c] + s) == [[c] + Split(s)[0]] + Split(s)[1..]
  {
    assert ([c] + s)[1..] == s;
  }

  /** Joining the levels of a topic gives the topic back: Split loses nothing. */
  lemma {:induction false} SplitJoin(s: bytes)
    ensures Join(Split(s)) == s
  {
    if s == [] {
    } else {
      SplitJoin(s[1..]);
      SplitCons(s[0], s[1..]);
      assert s == [s[0]] + s[1..];
      if s[0] == SLASH {
        assert ([[]] + Split(s[1..]))[1..] == Split(s[1..]);
      } else {
        var rest := Split(s[1..]);
        JoinCons(s[0], rest[0], rest[1..]);
        assert [rest[0]] + rest[1..] == rest;
      }
    }
  }

  /** Every list of levels without '/' is the split of exactly one topic. */
  lemma {:induction false} JoinSplit(levels: seq<bytes>)
    requires |levels| >= 1
    requires forall k :: 0 <= k < |levels| ==> SLASH !in levels[k]
    ensures Split(Join(levels)) == levels
    decreases |levels|, |levels[0]|
  {
    hide Split, Join;
    var first := levels[0];
    if first != [] {
      var shorter := [first[1..]] + levels[1..];
      assert shorter[1..] == levels[1..] && shorter[0] == first[1..];
      JoinSplit(shorter);
      assert [first[0]] + first[1..] == first && [first] + levels[1..] == levels;
      JoinCons(first[0], first[1..], levels[1..]);
      SplitCons(first[0], Join(shorter));
    } else if |levels| > 1 {
      JoinSplit(levels[1..]);
      JoinEmpty(levels);
      SplitCons(SLASH, Join(levels[1..]));
    } else {
      assert levels == [[]];
      JoinEmpty(levels);
    }
  }

  /** An empty first level adds a '/' in front, and the only level of an empty topic adds nothing. */
  lemma JoinEmpty(levels: seq<bytes>)
    requires |levels| >= 1 && levels[0] == []
    ensures if |levels| == 1 then Join(levels) == [] && Split([]) == [[]] else Join(levels) == [SLASH] + Join(levels[1..])
  {
  }
}
