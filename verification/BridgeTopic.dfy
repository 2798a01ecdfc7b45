/** Topic mapping of bridges: a prefix is taken off on one side and another put on. */
module BridgeTopic {
  import opened Bytes
  import opened TopicLevels
  import opened TopicMatch
  import Wire
  import Publish

  datatype Direction = Out | In | Both

  /** One topic line of a bridge; the two full patterns are built when it is added. */
  datatype Mapping = Mapping(pattern: Option<bytes>, direction: Direction,
                             local: Option<bytes>, remote: Option<bytes>,
                             localTopic: bytes, remoteTopic: bytes)

  /** What the list holds: a complete mapping, or what a refused line leaves behind, without its two full patterns. */
  datatype Entry =
    | Complete(m: Mapping)
    | HalfFilled(pattern: Option<bytes>, direction: Direction, local: Option<bytes>, remote: Option<bytes>)

  predicate NoNul(s: bytes) { NUL !in s }

  predicate NoNulOption(o: Option<bytes>) { o.Some? ==> NoNul(o.value) }

  /** A missing string reads as empty. */
  function Text(o: Option<bytes>): bytes { if o.Some? then o.value else [] }

  function Strip(prefix: Option<bytes>, topic: bytes): bytes {
    if prefix.Some? && prefix.value <= topic then topic[|prefix.value|..] else topic
  }

  function Add(prefix: Option<bytes>, topic: bytes): bytes { Text(prefix) + topic }

  /** The mapping is used in this direction and changes something. */
  predicate Maps(m: Mapping, direction: Direction) {
    (m.direction == Both || m.direction == direction) && (m.local.Some? || m.remote.Some?)
  }

  /** bridge__remap_topic_in: the first mapping whose remote pattern matches. */
  function MapIn(ms: seq<Mapping>, topic: bytes): (Rc, bytes) {
    if ms == [] then (Success, topic)
    else if !Maps(ms[0], In) then MapIn(ms[1..], topic)
    else match MatchOutcome(ms[0].remoteTopic, topic)
      case Invalid => (Inval, topic)
      case Match => (Success, Add(ms[0].local, Strip(ms[0].remote, topic)))
      case NoMatch => MapIn(ms[1..], topic)
  }

  /** The topic under which send__publish sends: the first mapping whose local pattern matches. */
  function MapOut(ms: seq<Mapping>, topic: bytes): (Rc, bytes) {
    if ms == [] then (Success, topic)
    else if !Maps(ms[0], Out) then MapOut(ms[1..], topic)
    else match MatchOutcome(ms[0].localTopic, topic)
      case Invalid => (Inval, topic)
      case Match => (Success, Add(ms[0].remote, Strip(ms[0].local, topic)))
      case NoMatch => MapOut(ms[1..], topic)
  }

  datatype Remapped =
    | Remapped(rc: Rc, topic: bytes)
    | Undefined               // a pattern is read that was never set
    | Swallowed               // the topic is not longer than the mount point

  /** Whether an entry is used in a direction, and changes something. */
  predicate Uses(e: Entry, direction: Direction) {
    match e
    case Complete(m) => Maps(m, direction)
    case HalfFilled(_, d, local, remote) => (d == Both || d == direction) && (local.Some? || remote.Some?)
  }

  /** bridge__remap_topic_in on any list. */
  function RemapIn(es: seq<Entry>, topic: bytes): Remapped {
    if es == [] then Remapped(Success, topic)
    else if !Uses(es[0], In) then RemapIn(es[1..], topic)
    else match es[0]
      case HalfFilled(_, _, _, _) => Undefined
      case Complete(m) =>
        match MatchOutcome(m.remoteTopic, topic)
        case Invalid => Remapped(Inval, topic)
        case Match => Remapped(Success, Add(m.local, Strip(m.remote, topic)))
        case NoMatch => RemapIn(es[1..], topic)
  }

  /** The mapping part of send__publish on any list. */
  function RemapOut(es: seq<Entry>, topic: bytes): Remapped {
    if es == [] then Remapped(Success, topic)
    else if !Uses(es[0], Out) then RemapOut(es[1..], topic)
    else match es[0]
      case HalfFilled(_, _, _, _) => Undefined
      case Complete(m) =>
        match MatchOutcome(m.localTopic, topic)
        case Invalid => Remapped(Inval, topic)
        case Match => Remapped(Success, Add(m.remote, Strip(m.local, topic)))
        case NoMatch => RemapOut(es[1..], topic)
  }

  /** What handle__publish puts in front of a topic, and send__publish takes off by its length. */
  function Mounted(mount: Option<bytes>, topic: bytes): bytes { Text(mount) + topic }

  function SentAs(es: seq<Entry>, mount: Option<bytes>, topic: bytes): Remapped {
    if mount.None? then RemapOut(es, topic)
    else if |mount.value| < |topic| then RemapOut(es, topic[|mount.value|..])
    else Swallowed
  }

  /** A mount point comes off as it was put on, unless the topic behind it is empty. */
  lemma MountComesOffExactly(es: seq<Entry>, mount: Option<bytes>, topic: bytes)
    requires mount.Some?
    ensures SentAs(es, mount, Mounted(mount, topic)) == if topic == [] then Swallowed else RemapOut(es, topic)
    ensures RemapOut(es, topic) != Swallowed
  {
    hide RemapOut;
    assert (mount.value + topic)[|mount.value|..] == topic;
    NeverSwallowed(es, topic);
  }

  lemma {:induction false} NeverSwallowed(es: seq<Entry>, topic: bytes)
    ensures RemapOut(es, topic) != Swallowed
  {
    hide MatchOutcome;
    if es == [] {
    } else {
      NeverSwallowed(es[1..], topic);
    }
  }

  function MappingsOf(es: seq<Entry>): seq<Mapping>
    requires forall k :: 0 <= k < |es| ==> es[k].Complete?
  {
    if es == [] then [] else [es[0].m] + MappingsOf(es[1..])
  }

  /** On a list of complete entries both are the maps on mappings. */
  lemma {:induction false} CompleteRemap(es: seq<Entry>, topic: bytes)
    requires forall k :: 0 <= k < |es| ==> es[k].Complete?
    ensures var (rc, mapped) := MapIn(MappingsOf(es), topic); RemapIn(es, topic) == Remapped(rc, mapped)
    ensures var (rc, mapped) := MapOut(MappingsOf(es), topic); RemapOut(es, topic) == Remapped(rc, mapped)
  {
    if es == [] {
    } else {
      CompleteRemap(es[1..], topic);
      assert ([es[0].m] + MappingsOf(es[1..]))[1..] == MappingsOf(es[1..]);
    }
  }

  function PatternFor(m: Mapping, direction: Direction): bytes {
    if direction == In then m.remoteTopic else m.localTopic
  }

  /** The entry lets a topic pass on to the next one. */
  predicate Passes(e: Entry, direction: Direction, topic: bytes) {
    !Uses(e, direction) || (e.Complete? && MatchOutcome(PatternFor(e.m, direction), topic) == NoMatch)
  }

  /** The loop comes to a half-filled entry of its direction. */
  predicate ReachesUnset(es: seq<Entry>, direction: Direction, topic: bytes) {
    exists k :: 0 <= k < |es| && es[k].HalfFilled? && Uses(es[k], direction) &&
                forall j :: 0 <= j < k ==> Passes(es[j], direction, topic)
  }

  /** An unset pattern is read if and only if the loop comes to a half-filled entry of its direction. */
  lemma {:induction false} UndefinedExactly(es: seq<Entry>, topic: bytes)
    ensures RemapIn(es, topic) == Undefined <==> ReachesUnset(es, In, topic)
    ensures RemapOut(es, topic) == Undefined <==> ReachesUnset(es, Out, topic)
  {
    hide MatchOutcome, Maps, ReachesUnset;
    NoneUnset(topic);
    if es == [] {
    } else {
      UndefinedExactly(es[1..], topic);
      FirstOrLater(es, In, topic);
      FirstOrLater(es, Out, topic);
    }
  }

  lemma NoneUnset(topic: bytes)
    ensures !ReachesUnset([], In, topic) && !ReachesUnset([], Out, topic)
  {
  }

  lemma FirstOrLater(es: seq<Entry>, direction: Direction, topic: bytes)
    requires es != []
    ensures ReachesUnset(es, direction, topic) <==>
            (es[0].HalfFilled? && Uses(es[0], direction)) ||
            (Passes(es[0], direction, topic) && ReachesUnset(es[1..], direction, topic))
  {
    hide MatchOutcome, Uses, Passes;
    var rest := es[1..];
    if k :| 0 <= k < |es| && es[k].HalfFilled? && Uses(es[k], direction) && forall j :: 0 <= j < k ==> Passes(es[j], direction, topic) {
      if k > 0 { assert rest[k - 1] == es[k] && forall j :: 0 <= j < k - 1 ==> rest[j] == es[j + 1]; }
    }
    if k :| 0 <= k < |rest| && rest[k].HalfFilled? && Uses(rest[k], direction) && forall j :: 0 <= j < k ==> Passes(rest[j], direction, topic) {
      assert es[k + 1] == rest[k] && forall j :: 1 <= j < k + 1 ==> es[j] == rest[j - 1];
    }
  }

  /** What bridge__add_topic makes sure of for a mapping with a prefix. */
  predicate Checked(m: Mapping) {
    && m.localTopic == Text(m.local) + Text(m.pattern) && m.remoteTopic == Text(m.remote) + Text(m.pattern)
    && Plain(Text(m.local)) && Plain(Text(m.remote))
    && NoNul(m.localTopic) && NoNul(m.remoteTopic)
    && (m.local.Some? ==> FilterOk(m.localTopic, true))
    && (m.remote.Some? ==> FilterOk(m.remoteTopic, true))
  }

  function Unquoted(topic: Option<bytes>): Option<bytes> {
    if topic == Some([0x22, 0x22]) then None else topic
  }

  /** A prefix is a topic name, and prefix and pattern together are a filter. */
  predicate PrefixFits(pattern: Option<bytes>, prefix: Option<bytes>) {
    prefix.Some? ==> TopicOk(prefix.value, true) && FilterOk(prefix.value + Text(pattern), true)
  }

  /** The tests at the start of bridge__add_topic, before the list grows. */
  predicate RefusedAtOnce(pattern: Option<bytes>, qos: nat, local: Option<bytes>, remote: Option<bytes>) {
    || qos > 2
    || (local.Some? && !TopicOk(local.value, true))
    || (remote.Some? && !TopicOk(remote.value, true))
    || (pattern.None? && (local.None? || remote.None?))
  }

  function MappingOf(pattern: Option<bytes>, direction: Direction, local: Option<bytes>, remote: Option<bytes>): Mapping {
    Mapping(pattern, direction, local, remote, Text(local) + Text(pattern), Text(remote) + Text(pattern))
  }

  datatype Added = Added(rc: Rc, topics: seq<Entry>, remapping: bool)

  /** bridge__add_topic: a prefix that does not go with the pattern is noticed when the list has grown. */
  function AddOutcome(topics: seq<Entry>, remapping: bool, topic: Option<bytes>, direction: Direction, qos: nat,
                      local: Option<bytes>, remote: Option<bytes>): Added
  {
    var pattern := Unquoted(topic);
    if RefusedAtOnce(pattern, qos, local, remote) then Added(Inval, topics, remapping)
    else if !PrefixFits(pattern, local) then
      Added(Nomem, topics + [HalfFilled(pattern, direction, Some(Text(local) + Text(pattern)), None)], true)
    else if !PrefixFits(pattern, remote) then
      Added(Nomem, topics + [HalfFilled(pattern, direction, local, Some(Text(remote) + Text(pattern)))], true)
    else
      Added(Success, topics + [Complete(MappingOf(pattern, direction, local, remote))],
            remapping || local.Some? || remote.Some?)
  }

  /**
   A refused line leaves the list as it was if and only if one of the tests at the start refuses
   it. Otherwise both prefixes are valid topic names, only not together with the pattern, and the
   list has a half-filled entry at its end.
   */
  lemma RefusalKeepsListExactly(topics: seq<Entry>, remapping: bool, topic: Option<bytes>, direction: Direction, qos: nat,
                                local: Option<bytes>, remote: Option<bytes>)
    ensures var after := AddOutcome(topics, remapping, topic, direction, qos, local, remote);
            after.rc != Success ==>
              && (after.topics == topics <==> RefusedAtOnce(Unquoted(topic), qos, local, remote))
              && (after.topics != topics ==>
                    && after.topics[..|topics|] == topics && |after.topics| == |topics| + 1 && after.topics[|topics|].HalfFilled?
                    && (local.Some? ==> TopicOk(local.value, true)) && (remote.Some? ==> TopicOk(remote.value, true))
                    && !(PrefixFits(Unquoted(topic), local) && PrefixFits(Unquoted(topic), remote)))
  {
    hide TopicOk, FilterOk;
  }

  /** The line 'topic # both 0 a b/': the local prefix "a" is fine, "a#" is not a filter. */
  lemma HalfFilledExample(remapping: bool)
    ensures var pattern := Some([HASH]);
            AddOutcome([], remapping, pattern, Both, 0, Some([0x61]), Some([0x62, SLASH]))
            == Added(Nomem, [HalfFilled(pattern, Both, Some([0x61, HASH]), None)], true)
  {
    var full := [0x61, HASH];
    assert [0x61] + [HASH] == full;
    assert !WildPlacedAt(full, 1);
    WildPlacedIsWellFormed(full);
    ShortTopic([0x61]);
    ShortTopic([0x62, SLASH]);
  }

  lemma ShortTopic(s: bytes)
    requires 1 <= |s| <= 2 && Plain(s)
    ensures TopicOk(s, true)
  {
    ShortIsFlat(s);
  }

  lemma Terminated(s: bytes)
    requires NoNul(s)
    ensures CString(s + [NUL], s)
  {
    assert forall k :: 0 <= k < |s| ==> s[k] in s;
  }

  class Bridge {
    var topics: seq<Entry>
    var remapping: bool

    constructor ()
      ensures Valid() && topics == []
    {
      topics, remapping := [], false;
    }

    ghost predicate Valid()
      reads this
    {
      && (forall k :: 0 <= k < |topics| && topics[k].Complete? ==> Checked(topics[k].m))
      && (!remapping ==> forall k :: 0 <= k < |topics| ==>
                           topics[k].Complete? && !topics[k].m.local.Some? && !topics[k].m.remote.Some?)
    }

    /** The check of a prefix on its own. */
    method PrefixOk(prefix: Option<bytes>) returns (ok: bool)
      requires NoNulOption(prefix)
      ensures ok <==> (prefix.Some? ==> TopicOk(prefix.value, true))
    {
      hide TopicOk;
      if prefix.None? { return true; }
      Terminated(prefix.value);
      var rc := PubTopicCheck(prefix.value + [NUL], prefix.value, true);
      return rc == Success;
    }

    /**
     bridge__create_prefix: the check of a prefix with its pattern. The field holds both while they
     are checked, and goes on holding them when they are refused.
     */
    method CreatePrefix(topic: Option<bytes>, prefix: bytes) returns (rc: Rc, field: Option<bytes>)
      requires NoNulOption(topic) && NoNul(prefix)
      ensures rc == if PrefixFits(topic, Some(prefix)) then Success else Inval
      ensures field == if !TopicOk(prefix, true) then None
                       else if rc == Success then Some(prefix) else Some(prefix + Text(topic))
    {
      hide TopicOk, FilterOk;
      Terminated(prefix);
      rc := PubTopicCheck(prefix + [NUL], prefix, true);
      if rc != Success { return Inval, None; }
      var full := FullTopic(Some(prefix), topic);
      field := Some(full);
      Terminated(full);
      rc := SubTopicCheck(full + [NUL], full, true);
      if rc != Success { return Inval, field; }
      field := Some(prefix);
    }

    /** bridge__add_topic; an empty pattern is written as two quotes. */
    method AddTopic(topic: Option<bytes>, direction: Direction, qos: nat, local: Option<bytes>, remote: Option<bytes>)
      returns (rc: Rc)
      requires Valid() && NoNulOption(topic) && NoNulOption(local) && NoNulOption(remote)
      modifies this
      ensures Valid()
      ensures Added(rc, topics, remapping) == AddOutcome(old(topics), old(remapping), topic, direction, qos, local, remote)
    {
      hide TopicOk, FilterOk, Checked, Text, PrefixFits;
      if qos > 2 { return Inval; }
      var ok := PrefixOk(local);
      if !ok { return Inval; }
      ok := PrefixOk(remote);
      if !ok { return Inval; }
      var pattern := Unquoted(topic);
      if pattern.None? && (local.None? || remote.None?) { return Inval; }
      ghost var before := topics;
      topics := topics + [HalfFilled(pattern, direction, None, None)];
      if local.Some? || remote.Some? { remapping := true; }
      var localPrefix, remotePrefix;
      rc, localPrefix, remotePrefix := CreatePrefixes(pattern, local, remote);
      topics := topics[|topics| - 1 := HalfFilled(pattern, direction, localPrefix, remotePrefix)];
      assert topics == before + [HalfFilled(pattern, direction, localPrefix, remotePrefix)];
      if rc != Success { return Nomem; }
      var m := Mapping(pattern, direction, localPrefix, remotePrefix,
                       FullTopic(localPrefix, pattern), FullTopic(remotePrefix, pattern));
      IsChecked(m);
      topics := topics[|topics| - 1 := Complete(m)];
      assert topics == before + [Complete(m)];
      return Success;
    }

    /** The two prefix fields of a new entry, as far as they are filled. */
    method CreatePrefixes(pattern: Option<bytes>, local: Option<bytes>, remote: Option<bytes>)
      returns (rc: Rc, localPrefix: Option<bytes>, remotePrefix: Option<bytes>)
      requires NoNulOption(pattern) && NoNulOption(local) && NoNulOption(remote)
      requires (local.Some? ==> TopicOk(local.value, true)) && (remote.Some? ==> TopicOk(remote.value, true))
      ensures rc == Success <==> PrefixFits(pattern, local) && PrefixFits(pattern, remote)
      ensures rc != Success ==> local.Some? || remote.Some?
      ensures localPrefix == if PrefixFits(pattern, local) then local else Some(Text(local) + Text(pattern))
      ensures remotePrefix == if !PrefixFits(pattern, local) then None
                              else if PrefixFits(pattern, remote) then remote else Some(Text(remote) + Text(pattern))
    {
      hide TopicOk, FilterOk;
      rc, localPrefix, remotePrefix := Success, None, None;
      if local.Some? {
        rc, localPrefix := CreatePrefix(pattern, local.value);
        if rc != Success { return; }
      }
      if remote.Some? {
        rc, remotePrefix := CreatePrefix(pattern, remote.value);
      }
    }

    lemma IsChecked(m: Mapping)
      requires NoNulOption(m.pattern) && NoNulOption(m.local) && NoNulOption(m.remote)
      requires m.localTopic == Text(m.local) + Text(m.pattern) && m.remoteTopic == Text(m.remote) + Text(m.pattern)
      requires PrefixFits(m.pattern, m.local) && PrefixFits(m.pattern, m.remote)
      ensures Checked(m)
    {
    }

    /** bridge__create_remap_topic. */
    function FullTopic(prefix: Option<bytes>, topic: Option<bytes>): (full: bytes)
      ensures full == Text(prefix) + Text(topic)
    {
      if prefix.Some? then
        if topic.Some? then prefix.value + topic.value else prefix.value
      else Text(topic)
    }

    method RemapTopicIn(topic: bytes) returns (result: Remapped)
      requires Valid() && NoNul(topic)
      ensures result == RemapIn(topics, topic)
    {
      hide MatchOutcome, Checked;
      if !remapping {
        NothingMaps(topics, topic);
        return Remapped(Success, topic);
      }
      assert topics[0..] == topics;
      for i := 0 to |topics|
        invariant RemapIn(topics[i..], topic) == RemapIn(topics, topic)
      {
        assert topics[i..][0] == topics[i] && topics[i..][1..] == topics[i + 1..];
        if Uses(topics[i], In) {
          if topics[i].HalfFilled? { return Undefined; }
          var m := topics[i].m;
          PatternsEnd(m);
          Terminated(topic);
          var rc, matched := MatchesSub(m.remoteTopic + [NUL], topic + [NUL], m.remoteTopic, topic);
          if rc != Success { return Remapped(rc, topic); }
          if matched {
            var mapped := topic;
            if m.remote.Some? && m.remote.value <= mapped { mapped := mapped[|m.remote.value|..]; }
            EmptyFront(mapped);
            if m.local.Some? { mapped := m.local.value + mapped; }
            return Remapped(Success, mapped);
          }
        }
      }
      return Remapped(Success, topic);
    }

    /** The mount point and the mapping in send__publish. */
    method SentTopic(mount: Option<bytes>, topic: bytes) returns (result: Remapped)
      requires Valid() && NoNul(topic)
      ensures result == SentAs(topics, mount, topic)
    {
      hide RemapOut;
      var rest := topic;
      if mount.Some? {
        if |mount.value| >= |topic| { return Swallowed; }
        rest := topic[|mount.value|..];
      }
      result := RemapTopicOut(rest);
    }

    /** The mapping part of send__publish. */
    method RemapTopicOut(topic: bytes) returns (result: Remapped)
      requires Valid() && NoNul(topic)
      ensures result == RemapOut(topics, topic)
    {
      hide MatchOutcome, Checked;
      if !remapping {
        NothingMaps(topics, topic);
        return Remapped(Success, topic);
      }
      assert topics[0..] == topics;
      for i := 0 to |topics|
        invariant RemapOut(topics[i..], topic) == RemapOut(topics, topic)
      {
        assert topics[i..][0] == topics[i] && topics[i..][1..] == topics[i + 1..];
        if Uses(topics[i], Out) {
          if topics[i].HalfFilled? { return Undefined; }
          var m := topics[i].m;
          PatternsEnd(m);
          Terminated(topic);
          var rc, matched := MatchesSub(m.localTopic + [NUL], topic + [NUL], m.localTopic, topic);
          if rc != Success { return Remapped(rc, topic); }
          if matched {
            var mapped := topic;
            if m.local.Some? && m.local.value <= mapped { mapped := mapped[|m.local.value|..]; }
            EmptyFront(mapped);
            if m.remote.Some? { mapped := m.remote.value + mapped; }
            return Remapped(Success, mapped);
          }
        }
      }
      return Remapped(Success, topic);
    }

    lemma PatternsEnd(m: Mapping)
      requires Checked(m)
      ensures CString(m.localTopic + [NUL], m.localTopic) && CString(m.remoteTopic + [NUL], m.remoteTopic)
    {
      Terminated(m.localTopic);
      Terminated(m.remoteTopic);
    }
  }

  lemma EmptyFront(s: bytes)
    ensures [] + s == s
  {
  }

  lemma {:induction false} NothingMaps(es: seq<Entry>, topic: bytes)
    requires forall k :: 0 <= k < |es| ==> es[k].Complete? && !es[k].m.local.Some? && !es[k].m.remote.Some?
    ensures RemapIn(es, topic) == RemapOut(es, topic) == Remapped(Success, topic)
  {
    if es == [] {
    } else {
      NothingMaps(es[1..], topic);
    }
  }

  // ----- Matching does not depend on a literal prefix -----

  lemma PlainHead(p: bytes)
    requires Plain(p) && p != []
    ensures !Wild(p[0]) && Plain(p[1..])
  {
    assert p[0] in p;
    assert forall c :: c in p[1..] ==> c in p;
  }

  /** A literal prefix on both sides changes nothing. */
  lemma {:induction false} PrefixIsIrrelevant(p: bytes, f: bytes, t: bytes)
    requires Plain(p) && WildPlaced(p + f)
    ensures LevelsMatch(Split(p + f), Split(p + t)) == LevelsMatch(Split(f), Split(t))
    ensures WildPlaced(f)
  {
    if p == [] {
      assert p + f == f && p + t == t;
    } else {
      PlainHead(p);
      assert (p + f)[1..] == p[1..] + f && (p + t)[1..] == p[1..] + t;
      WildPlacedTail(p + f);
      PrefixIsIrrelevant(p[1..], f, t);
      MatchAfterEqual(p + f, p + t);
    }
  }

  lemma PrefixOfTail(p: bytes, t: bytes)
    requires p != [] && t != [] && p[0] == t[0]
    ensures p <= t <==> p[1..] <= t[1..]
  {
    if p[1..] <= t[1..] {
      assert p == [p[0]] + p[1..] && t == [t[0]] + t[1..];
      assert t[1..][..|p[1..]|] == p[1..];
    }
  }

  /** A topic without the literal prefix matches only as the parent of a final '#'. */
  lemma {:induction false} MatchWithoutPrefix(p: bytes, f: bytes, t: bytes)
    requires Plain(p) && WildPlaced(p + f) && !(p <= t)
    requires LevelsMatch(Split(p + f), Split(t))
    ensures f == [HASH] && p == t + [SLASH]
  {
    PlainHead(p);
    var pf := p + f;
    if t == [] || t[0] != p[0] {
      MatchAtDifference(pf, t);
      assert forall k :: 0 <= k < |p| ==> p[k] in p && p[k] == pf[k];
      assert |pf| == 2 && pf[0] == SLASH && pf[1] == HASH;
      assert p == pf[..|p|] && f == pf[|p|..];
    } else {
      assert pf[1..] == p[1..] + f;
      WildPlacedTail(pf);
      MatchAfterEqual(pf, t);
      PrefixOfTail(p, t);
      MatchWithoutPrefix(p[1..], f, t[1..]);
      assert p == [p[0]] + p[1..] && t == [t[0]] + t[1..];
    }
  }

  /** The matcher on any well-placed filter and plain topic, however long. */
  lemma MatcherIsMatches(f: bytes, t: bytes)
    requires f != [] && t != [] && WildPlaced(f) && Plain(t)
    ensures MatchOutcome(f, t) == if Matches(f, t) then Match else NoMatch
  {
    if !DollarMismatch(f, t) {
      WalkIsLevelMatch(f, 0, t, 0);
      assert f[0..] == f && t[0..] == t;
    }
  }

  lemma PlainParts(a: bytes, b: bytes)
    requires Plain(a) && Plain(b)
    ensures Plain(a + b)
  {
  }

  lemma PlainSuffix(t: bytes, n: nat)
    requires Plain(t) && n <= |t|
    ensures Plain(t[n..])
  {
    assert forall c :: c in t[n..] ==> c in t;
  }

  /**
   Swapping one non-empty literal prefix for another keeps the outcome of the matcher, for every
   pattern and every rest.
   */
  lemma PrefixSwap(p: bytes, q: bytes, f: bytes, t: bytes)
    requires p != [] && q != [] && Plain(p) && Plain(q) && Plain(t) && WildPlaced(p + f) && WildPlaced(q + f)
    ensures MatchOutcome(p + f, p + t) == MatchOutcome(q + f, q + t)
  {
    PlainParts(p, t);
    PlainParts(q, t);
    MatcherIsMatches(p + f, p + t);
    MatcherIsMatches(q + f, q + t);
    PrefixIsIrrelevant(p, f, t);
    PrefixIsIrrelevant(q, f, t);
  }

  // ----- There and back -----

  lemma ChecksGiveShape(m: Mapping)
    requires Checked(m) && Maps(m, Both)
    ensures WildPlaced(m.localTopic) && WildPlaced(m.remoteTopic)
  {
    WildPlacedIsWellFormed(m.localTopic);
    WildPlacedIsWellFormed(m.remoteTopic);
    if m.local.None? {
      PrefixIsIrrelevant(Text(m.remote), Text(m.pattern), []);
      assert m.localTopic == Text(m.pattern);
    }
    if m.remote.None? {
      PrefixIsIrrelevant(Text(m.local), Text(m.pattern), []);
      assert m.remoteTopic == Text(m.pattern);
    }
  }

  lemma OneMapping(m: Mapping, topic: bytes)
    requires Maps(m, Both) && m.direction == Both
    ensures MapIn([m], topic) == match MatchOutcome(m.remoteTopic, topic) {
                                   case Invalid => (Inval, topic)
                                   case Match => (Success, Add(m.local, Strip(m.remote, topic)))
                                   case NoMatch => (Success, topic)
                                 }
    ensures MapOut([m], topic) == match MatchOutcome(m.localTopic, topic) {
                                    case Invalid => (Inval, topic)
                                    case Match => (Success, Add(m.remote, Strip(m.local, topic)))
                                    case NoMatch => (Success, topic)
                                  }
  {
    assert [m][1..] == [];
    assert MapIn([m][1..], topic) == (Success, topic) && MapOut([m][1..], topic) == (Success, topic);
  }

  /** When a topic comes back from the local side. */
  predicate ComesBack(m: Mapping, topic: bytes) {
    var l, r, f := Text(m.local), Text(m.remote), Text(m.pattern);
    if r <= topic then
      var rest := topic[|r|..];
      l != [] || r == [] || (rest != [] && (rest[0] == DOLLAR ==> f != [] && f[0] == DOLLAR))
    else
      l == [] && topic != [] && topic[0] == DOLLAR
  }

  lemma OutgoingWithLocal(m: Mapping, rest: bytes)
    requires Checked(m) && Maps(m, Both) && m.direction == Both && Plain(rest) && Text(m.local) != []
    requires LevelsMatch(Split(Text(m.pattern)), Split(rest))
    ensures MatchOutcome(m.localTopic, Text(m.local) + rest) == Match
    ensures MapOut([m], Text(m.local) + rest) == (Success, Text(m.remote) + rest)
  {
    var l, f := Text(m.local), Text(m.pattern);
    ChecksGiveShape(m);
    OneMapping(m, l + rest);
    PrefixIsIrrelevant(l, f, rest);
    PlainParts(l, rest);
    MatcherIsMatches(m.localTopic, l + rest);
    assert (l + rest)[|l|..] == rest;
  }

  lemma OutgoingWithoutLocal(m: Mapping, rest: bytes)
    requires Checked(m) && Maps(m, Both) && m.direction == Both && Plain(rest) && Text(m.local) == []
    requires LevelsMatch(Split(Text(m.pattern)), Split(rest)) && WildPlaced(Text(m.pattern))
    ensures m.localTopic == Text(m.pattern)
    ensures var f := Text(m.pattern);
            MapOut([m], rest) ==
            if rest == [] || f == [] then (Inval, rest)
            else if rest[0] == DOLLAR && f[0] != DOLLAR then (Success, rest)
            else (Success, Text(m.remote) + rest)
    ensures var f := Text(m.pattern);
            rest != [] && f != [] && (rest[0] == DOLLAR ==> f[0] == DOLLAR) ==> MatchOutcome(m.localTopic, rest) == Match
  {
    var f := Text(m.pattern);
    OneMapping(m, rest);
    assert m.localTopic == f && rest[0..] == rest;
    if f != [] && rest != [] {
      MatcherIsMatches(f, rest);
      if f[0] == DOLLAR && rest[0] != DOLLAR { MatchAtDifference(f, rest); }
    }
  }

  /** A topic with the remote prefix: it becomes the local prefix and the rest. */
  lemma BackWithPrefix(m: Mapping, rest: bytes)
    requires Checked(m) && Maps(m, Both) && m.direction == Both
    requires var topic := Text(m.remote) + rest;
             Plain(topic) && MatchOutcome(m.remoteTopic, topic) == Match
    ensures var topic := Text(m.remote) + rest;
            && MapIn([m], topic) == (Success, Text(m.local) + rest)
            && (MapOut([m], Text(m.local) + rest) == (Success, topic) <==> ComesBack(m, topic))
            && (ComesBack(m, topic) ==> MatchOutcome(m.localTopic, Text(m.local) + rest) == Match)
  {
    hide MatchOutcome, LevelsMatch, Split, WildPlaced, MapIn, MapOut, Plain;
    var l, r, f := Text(m.local), Text(m.remote), Text(m.pattern);
    var topic := r + rest;
    assert topic[|r|..] == rest;
    OneMapping(m, topic);
    PlainSuffix(topic, |r|);
    RestMatches(m, rest);
    if l != [] {
      OutgoingWithLocal(m, rest);
    } else {
      assert l + rest == rest;
      OutgoingWithoutLocal(m, rest);
      EmptyFilterMatches(f, rest);
    }
  }

  lemma RestMatches(m: Mapping, rest: bytes)
    requires Checked(m) && Maps(m, Both) && Plain(Text(m.remote) + rest)
    requires MatchOutcome(m.remoteTopic, Text(m.remote) + rest) == Match
    ensures LevelsMatch(Split(Text(m.pattern)), Split(rest)) && WildPlaced(Text(m.pattern))
    ensures Text(m.remote) == [] ==> Text(m.pattern) != [] && rest != [] && !DollarMismatch(Text(m.pattern), rest)
  {
    var r, f := Text(m.remote), Text(m.pattern);
    ChecksGiveShape(m);
    MatcherIsMatches(m.remoteTopic, r + rest);
    PrefixIsIrrelevant(r, f, rest);
    if r == [] { assert r + rest == rest && r + f == f; }
  }

  /** An empty filter matches only the empty topic. */
  lemma EmptyFilterMatches(f: bytes, t: bytes)
    ensures f == [] && LevelsMatch(Split(f), Split(t)) ==> t == []
  {
    MatchEmptyFilter(t);
  }

  /** A topic without the remote prefix is the parent of the mapped subtree; it gains a prefix instead. */
  lemma BackWithoutPrefix(m: Mapping, topic: bytes)
    requires Checked(m) && Maps(m, Both) && m.direction == Both && Plain(topic)
    requires MatchOutcome(m.remoteTopic, topic) == Match && !(Text(m.remote) <= topic)
    ensures MapIn([m], topic) == (Success, Text(m.local) + topic)
    ensures MapOut([m], Text(m.local) + topic) == (Success, topic) <==> ComesBack(m, topic)
  {
    var l, r, f := Text(m.local), Text(m.remote), Text(m.pattern);
    var mapped := l + topic;
    ChecksGiveShape(m);
    OneMapping(m, topic);
    OneMapping(m, mapped);
    MatcherIsMatches(m.remoteTopic, topic);
    MatchWithoutPrefix(r, f, topic);
    PlainParts(l, topic);
    PrefixIsIrrelevant(l, f, topic);
    SplitSingle(HASH);
    MatcherIsMatches(m.localTopic, mapped);
    assert mapped[|l|..] == topic;
    assert |r + topic| != |topic|;
  }

  /**
   For a single topic mapped in both directions, an incoming topic that matches comes back
   unchanged exactly under ComesBack; in particular whenever it is the remote prefix and a
   non-empty rest that does not start with '$'.
   */
  lemma RoundTripExactly(m: Mapping, topic: bytes)
    requires Checked(m) && Maps(m, Both) && m.direction == Both && Plain(topic)
    requires MatchOutcome(m.remoteTopic, topic) == Match
    ensures var (rc, mapped) := MapIn([m], topic);
            rc == Success && (MapOut([m], mapped) == (Success, topic) <==> ComesBack(m, topic))
  {
    if Text(m.remote) <= topic {
      var rest := topic[|Text(m.remote)|..];
      assert topic == Text(m.remote) + rest;
      BackWithPrefix(m, rest);
    } else {
      BackWithoutPrefix(m, topic);
    }
  }

  /** A letter, '/' and '#'. */
  lemma PrefixedHash(c: byte)
    requires c > SLASH
    ensures Split([c, SLASH] + [HASH]) == [[c], [HASH]] && FilterOk([c, SLASH] + [HASH], true)
    ensures WildPlaced([c, SLASH] + [HASH]) && NoNul([c, SLASH] + [HASH])
  {
    var s := [c, SLASH] + [HASH];
    assert s == [c] + [SLASH, HASH] && [SLASH, HASH] == [SLASH] + [HASH];
    SplitCons(c, [SLASH, HASH]);
    SplitCons(SLASH, [HASH]);
    SplitSingle(HASH);
    var rest := [[], [HASH]];
    assert Split([SLASH, HASH]) == rest && [c] + rest[0] == [c] && rest[1..] == [[HASH]];
    assert Split(s) == [[c], [HASH]];
    WildPlacedIsWellFormed(s);
  }

  /**
   The line 'topic # both 0 l/ r/' with topic "r", the parent of everything mapped: it arrives as
   "l/r" and would go out again as "r/r".
   */
  lemma RoundTripFailsExample()
    ensures var m := MappingOf(Some([HASH]), Both, Some([0x6C, SLASH]), Some([0x72, SLASH]));
            && Checked(m) && MapIn([m], [0x72]) == (Success, [0x6C, SLASH, 0x72])
            && MapOut([m], [0x6C, SLASH, 0x72]) == (Success, [0x72, SLASH, 0x72])
  {
    var m := MappingOf(Some([HASH]), Both, Some([0x6C, SLASH]), Some([0x72, SLASH]));
    var topic := [0x72];
    PrefixedHash(0x6C);
    PrefixedHash(0x72);
    SplitSingle(0x72);
    SplitSingle(HASH);
    assert [[0x72], [HASH]][1..] == [[HASH]] && [[0x72]][1..] == [];
    MatcherIsMatches(m.remoteTopic, topic);
    assert !(Text(m.remote) <= topic);
    BackWithoutPrefix(m, topic);
    OutgoingWithLocal(m, topic);
    assert Text(m.local) + topic == [0x6C, SLASH, 0x72] && Text(m.remote) + topic == [0x72, SLASH, 0x72];
  }

  /**
   The line 'topic # out 0 "" r/' and a topic of 65535 bytes, both legal: the topic goes out with 65537
   bytes, of which one is written.
   */
  lemma LongTopicExample(topic: bytes)
    requires |topic| == 0xFFFF && Plain(topic) && SLASH !in topic && DOLLAR !in topic && NoNul(topic)
    ensures var m := MappingOf(Some([HASH]), Out, None, Some([0x72, SLASH]));
            var sent := [0x72, SLASH] + topic;
            && TopicOk(topic, true) && Checked(m) && RemapOut([Complete(m)], topic) == Remapped(Success, sent)
            && Wire.Cut16(sent) == [0x72] && Wire.Lost(sent) == 65536
            && !Publish.Writable(false, Publish.Message(false, 0, false, 0, sent, [], []))
  {
    var m := MappingOf(Some([HASH]), Out, None, Some([0x72, SLASH]));
    var sent := [0x72, SLASH] + topic;
    SplitNone(topic);
    PrefixedHash(0x72);
    HashMatches(topic);
    assert m.localTopic == [HASH] && [] + [HASH] == [HASH];
    assert [Complete(m)][1..] == [];
    assert |sent| == 65537 && sent[..1] == [0x72];
  }

  /** '#' alone matches every topic without '$' in front. */
  lemma HashMatches(topic: bytes)
    requires topic != [] && Plain(topic) && topic[0] != DOLLAR
    ensures MatchOutcome([HASH], topic) == Match
  {
    SplitSingle(HASH);
    assert WildPlacedAt([HASH], 0);
    MatcherIsMatches([HASH], topic);
  }
}
