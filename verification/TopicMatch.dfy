/**
 The topic checks, the tokeniser and the two hand-written matchers. Each method is a loop over
 cursors, proved against the specification in TopicLevels.
 */
module TopicMatch {
  import opened Bytes
  import opened TopicLevels

  /** The broker build also limits the number of '/' characters. */
  const TOPIC_HIERARCHY_LIMIT: nat := 200

  datatype Outcome = Invalid | Match | NoMatch

  predicate Wild(c: byte) { c == PLUS || c == HASH }

  predicate NoWildFrom(t: bytes, j: nat) {
    forall k :: j <= k < |t| ==> !Wild(t[k])
  }

  /** The buffer holds the NUL-terminated string s, as the pointer versions read it. */
  predicate CString(buf: bytes, s: bytes) {
    && |buf| == |s| + 1 && buf[|s|] == NUL
    && forall k :: 0 <= k < |s| ==> buf[k] == s[k] && s[k] != NUL
  }

  // ----- Checks of topic names and filters -----

  predicate SizeOk(s: bytes, broker: bool) {
    |s| <= 65535 && (broker ==> |Split(s)| - 1 <= TOPIC_HIERARCHY_LIMIT)
  }

  predicate TopicOk(s: bytes, broker: bool) {
    SizeOk(s, broker) && Plain(s)
  }

  predicate FilterOk(s: bytes, broker: bool) {
    SizeOk(s, broker) && WellFormedFilter(Split(s))
  }

  /** The character at i does not break the rules for wildcards. */
  predicate WildPlacedAt(s: bytes, i: nat)
    requires i < |s|
  {
    && (Wild(s[i]) ==> i == 0 || s[i - 1] == SLASH)
    && (s[i] == PLUS ==> i + 1 == |s| || s[i + 1] == SLASH)
    && (s[i] == HASH ==> i + 1 == |s|)
  }

  predicate WildPlaced(s: bytes) {
    forall i :: 0 <= i < |s| ==> WildPlacedAt(s, i)
  }

  function Slashes(s: bytes): nat {
    if s == [] then 0 else Slashes(s[..|s| - 1]) + (if s[|s| - 1] == SLASH then 1 else 0)
  }

  lemma {:induction false} SlashesFront(c: byte, s: bytes)
    ensures Slashes([c] + s) == (if c == SLASH then 1 else 0) + Slashes(s)
  {
    if s == [] {
      assert ([c] + s)[..0] == [];
    } else {
      SlashesFront(c, s[..|s| - 1]);
      assert ([c] + s)[..|s|] == [c] + s[..|s| - 1];
    }
  }

  lemma {:induction false} SlashesAreLevels(s: bytes)
    ensures |Split(s)| == Slashes(s) + 1
  {
    if s == [] {
    } else {
      SlashesFront(s[0], s[1..]);
      assert s == [s[0]] + s[1..];
      SlashesAreLevels(s[1..]);
    }
  }

  /** The head of a filter, at its first character: what well-formedness says about it. */
  lemma SplitHead(s: bytes)
    requires s != []
    ensures s[0] == SLASH ==> Split(s)[0] == [] && Split(s)[1..] == Split(s[1..])
    ensures s[0] != SLASH ==>
              Split(s)[0] == [s[0]] + Split(s[1..])[0] && Split(s)[1..] == Split(s[1..])[1..]
  {
  }

  /** The first level is empty exactly at the end of the string or before a '/'. */
  lemma SplitFirstEmpty(s: bytes)
    ensures Split(s)[0] == [] <==> s == [] || s[0] == SLASH
    ensures |Split(s)| == 1 && Split(s)[0] == [] <==> s == []
  {
  }

  /** The tail of a character-wise valid filter after a plain character or a '/'. */
  predicate WildPlacedAfter(s: bytes, prev: byte) {
    WildPlaced(s) && (s != [] && Wild(s[0]) ==> prev == SLASH)
  }

  lemma WildPlacedTail(s: bytes)
    requires WildPlaced(s) && s != []
    ensures WildPlacedAfter(s[1..], s[0])
  {
    forall i | 0 <= i < |s| - 1
      ensures WildPlacedAt(s[1..], i)
    {
      assert WildPlacedAt(s, i + 1);
    }
    if |s| > 1 { assert WildPlacedAt(s, 1); }
  }

  lemma WildPlacedCons(s: bytes)
    requires s != [] && WildPlacedAt(s, 0)
    requires WildPlacedAfter(s[1..], s[0])
    ensures WildPlaced(s)
  {
    forall i | 0 <= i < |s|
      ensures WildPlacedAt(s, i)
    {
      if i > 0 { assert WildPlacedAt(s[1..], i - 1); }
    }
  }

  lemma WellFormedAfterSlash(s: bytes)
    requires s != [] && s[0] == SLASH
    ensures WellFormedFilter(Split(s)) <==> WellFormedFilter(Split(s[1..]))
  {
    var all, rest := Split(s), Split(s[1..]);
    assert all[0] == [] && LevelOk(all, 0);
    forall k | 0 <= k < |rest|
      ensures LevelOk(all, k + 1) <==> LevelOk(rest, k)
    {
      assert all[k + 1] == rest[k];
    }
    if !WellFormedFilter(all) {
      var k :| 0 <= k < |all| && !LevelOk(all, k);
      assert !LevelOk(rest, k - 1);
    }
  }

  predicate TailOk(levels: seq<bytes>) {
    forall k :: 1 <= k < |levels| ==> LevelOk(levels, k)
  }

  lemma WellFormedAfterChar(s: bytes)
    requires s != [] && s[0] != SLASH
    ensures WellFormedFilter(Split(s)) <==> LevelOk(Split(s), 0) && TailOk(Split(s[1..]))
  {
    var all, rest := Split(s), Split(s[1..]);
    assert |all| == |rest|;
    forall k | 1 <= k < |rest|
      ensures LevelOk(all, k) <==> LevelOk(rest, k)
    {
      assert all[k] == rest[k];
    }
    if !WellFormedFilter(all) {
      var k :| 0 <= k < |all| && !LevelOk(all, k);
      assert k == 0 || !LevelOk(rest, k);
    }
    if !TailOk(rest) {
      var k :| 1 <= k < |rest| && !LevelOk(rest, k);
      assert !LevelOk(all, k);
    }
  }

  /** The character rules of mosquitto_sub_topic_check are the level rules of section 4.7.1. */
  lemma {:induction false} WildPlacedIsWellFormed(s: bytes)
    ensures WildPlaced(s) <==> WellFormedFilter(Split(s))
  {
    if s == [] {
    } else {
      WildPlacedIsWellFormed(s[1..]);
      if s[0] == SLASH { WellFormedAfterSlash(s); } else { WellFormedAfterChar(s); }
      SplitHead(s);
      var rest := s[1..];
      SplitFirstEmpty(rest);
      if WildPlaced(s) {
        WildPlacedTail(s);
        assert WildPlacedAt(s, 0);
        assert LevelOk(Split(rest), 0);
        if rest != [] && rest[0] != SLASH && s[0] != SLASH {
          assert !Wild(s[0]);
          SplitHead(rest);
          assert Split(rest)[0][0] == rest[0];
        }
      }
      if WellFormedFilter(Split(s)) {
        if s[0] != SLASH {
          assert LevelOk(Split(s), 0);
          assert Split(s)[0][0] == s[0];
          assert Split(s)[0][1..] == Split(rest)[0];
          assert forall c :: c in Split(rest)[0] ==> c in Split(s)[0];
          assert LevelOk(Split(rest), 0);
          assert WellFormedFilter(Split(rest));
          if rest != [] && rest[0] != SLASH {
            SplitHead(rest);
            assert Split(rest)[0][0] == rest[0];
          }
          if s[0] == HASH {
            assert Split(s)[0] == [HASH];
          }
        }
        assert WildPlacedAt(s, 0);
        WildPlacedCons(s);
      }
    }
  }

  // ----- The walk over both strings -----

  /** The end of the level that position j of the topic lies in. */
  function LevelEnd(t: bytes, j: nat): (k: nat)
    requires j <= |t|
    ensures j <= k <= |t|
    ensures k < |t| ==> t[k] == SLASH
    ensures forall m :: j <= m < k ==> t[m] != SLASH
    decreases |t| - j
  {
    if j == |t| || t[j] == SLASH then j else LevelEnd(t, j + 1)
  }

  predicate WildInLevel(t: bytes, j: nat)
    requires j <= |t|
  {
    exists k :: j <= k < LevelEnd(t, j) && Wild(t[k])
  }

  predicate MisplacedHash(f: bytes, i: nat) {
    exists k :: i <= k < |f| - 1 && f[k] == HASH
  }

  /** What both matchers answer once the filter cursor is at i and the topic cursor at j. */
  function Walk(f: bytes, i: nat, t: bytes, j: nat): Outcome
    requires i <= |f| && j <= |t|
    decreases |f| - i
  {
    if i == |f| then
      if NoWildFrom(t, j) then NoMatch else Invalid
    else if j < |t| && Wild(t[j]) then
      Invalid
    else if j == |t| || f[i] != t[j] then
      if f[i] == PLUS then
        if i > 0 && f[i - 1] != SLASH then Invalid
        else if i + 1 < |f| && f[i + 1] != SLASH then Invalid
        else if WildInLevel(t, j) then Invalid
        else if LevelEnd(t, j) == |t| && i + 1 == |f| then Match
        else Walk(f, i + 1, t, LevelEnd(t, j))
      else if f[i] == HASH then
        if i > 0 && f[i - 1] != SLASH then Invalid
        else if i + 1 < |f| then Invalid
        else if NoWildFrom(t, j) then Match
        else Invalid
      else if j == |t| && i > 0 && f[i - 1] == PLUS && f[i] == SLASH && i + 1 < |f| && f[i + 1] == HASH then
        Match
      else if MisplacedHash(f, i) then Invalid
      else NoMatch
    else if j + 1 == |t| && i + 3 == |f| && f[i + 1] == SLASH && f[i + 2] == HASH then
      Match
    else if i + 1 == |f| && j + 1 == |t| then
      Match
    else if j + 1 == |t| && i + 2 == |f| && f[i + 1] == PLUS then
      if f[i] != SLASH then Invalid else Match
    else
      Walk(f, i + 1, t, j + 1)
  }

  function MatchOutcome(f: bytes, t: bytes): Outcome {
    if f == [] || t == [] then Invalid
    else if DollarMismatch(f, t) then NoMatch
    else Walk(f, 0, t, 0)
  }

  /** The way an outcome is returned: a code and the boolean behind the result pointer. */
  predicate Reports(rc: Rc, result: bool, o: Outcome) {
    && rc == (if o.Invalid? then Inval else Success)
    && result == o.Match?
  }

  /** The inner loop for '+': moves to the end of the topic level unless a wildcard is in the way. */
  method SkipLevel(topic: bytes, ghost t: bytes, start: nat) returns (ok: bool, tpos: nat)
    requires CString(topic, t) && start <= |t|
    ensures ok <==> !WildInLevel(t, start)
    ensures ok ==> tpos == LevelEnd(t, start)
  {
    tpos := start;
    while topic[tpos] != NUL && topic[tpos] != SLASH
      invariant start <= tpos <= |t|
      invariant LevelEnd(t, start) == LevelEnd(t, tpos)
      invariant forall k :: start <= k < tpos ==> !Wild(t[k])
      decreases |t| - tpos
    {
      if topic[tpos] == PLUS || topic[tpos] == HASH {
        assert Wild(t[tpos]);
        return false, tpos;
      }
      tpos := tpos + 1;
    }
    ok := true;
  }

  /** The loop that looks for wildcards in the rest of the topic. */
  method SkipTopic(topic: bytes, ghost t: bytes, start: nat) returns (ok: bool)
    requires CString(topic, t) && start <= |t|
    ensures ok <==> NoWildFrom(t, start)
  {
    var tpos := start;
    while topic[tpos] != NUL
      invariant start <= tpos <= |t|
      invariant forall k :: start <= k < tpos ==> !Wild(t[k])
      decreases |t| - tpos
    {
      if topic[tpos] == PLUS || topic[tpos] == HASH {
        assert Wild(t[tpos]);
        return false;
      }
      tpos := tpos + 1;
    }
    ok := true;
  }

  /** The loop that looks for a '#' before the end of the filter. */
  method SkipFilter(sub: bytes, ghost f: bytes, start: nat) returns (ok: bool)
    requires CString(sub, f) && start <= |f|
    ensures ok <==> !MisplacedHash(f, start)
  {
    var spos := start;
    while sub[spos] != NUL
      invariant start <= spos <= |f|
      invariant forall k :: start <= k < spos ==> f[k] == HASH ==> k == |f| - 1
      decreases |f| - spos
    {
      if sub[spos] == HASH && sub[spos + 1] != NUL {
        assert MisplacedHash(f, start);
        return false;
      }
      spos := spos + 1;
    }
    ok := true;
  }

  /** mosquitto_topic_matches_sub: both strings end at their NUL, and no read passes it. */
  method MatchesSub(sub: bytes, topic: bytes, ghost f: bytes, ghost t: bytes)
    returns (rc: Rc, result: bool)
    requires CString(sub, f) && CString(topic, t)
    ensures Reports(rc, result, MatchOutcome(f, t))
  {
    if sub[0] == NUL || topic[0] == NUL {
      return Inval, false;
    }
    if (sub[0] == DOLLAR && topic[0] != DOLLAR) || (topic[0] == DOLLAR && sub[0] != DOLLAR) {
      return Success, false;
    }
    var spos, tpos := 0, 0;
    while sub[spos] != NUL
      invariant 0 <= spos <= |f| && 0 <= tpos <= |t|
      invariant MatchOutcome(f, t) == Walk(f, spos, t, tpos)
      decreases |f| - spos
    {
      if topic[tpos] == PLUS || topic[tpos] == HASH {
        return Inval, false;
      }
      if sub[spos] != topic[tpos] || topic[tpos] == NUL {
        if sub[spos] == PLUS {
          if spos > 0 && sub[spos - 1] != SLASH {
            return Inval, false;
          }
          if sub[spos + 1] != NUL && sub[spos + 1] != SLASH {
            return Inval, false;
          }
          spos := spos + 1;
          var ok;
          ok, tpos := SkipLevel(topic, t, tpos);
          if !ok {
            return Inval, false;
          }
          if topic[tpos] == NUL && sub[spos] == NUL {
            return Success, true;
          }
        } else if sub[spos] == HASH {
          if spos > 0 && sub[spos - 1] != SLASH {
            return Inval, false;
          }
          if sub[spos + 1] != NUL {
            return Inval, false;
          }
          var ok := SkipTopic(topic, t, tpos);
          if !ok {
            return Inval, false;
          }
          return Success, true;
        } else {
          if topic[tpos] == NUL && spos > 0 && sub[spos - 1] == PLUS && sub[spos] == SLASH && sub[spos + 1] == HASH {
            return Success, true;
          }
          var ok := SkipFilter(sub, f, spos);
          if !ok {
            return Inval, false;
          }
          return Success, false;
        }
      } else {
        if topic[tpos + 1] == NUL {
          if sub[spos + 1] == SLASH && sub[spos + 2] == HASH && sub[spos + 3] == NUL {
            return Success, true;
          }
        }
        spos := spos + 1;
        tpos := tpos + 1;
        if sub[spos] == NUL && topic[tpos] == NUL {
          return Success, true;
        } else if topic[tpos] == NUL && sub[spos] == PLUS && sub[spos + 1] == NUL {
          if spos > 0 && sub[spos - 1] != SLASH {
            return Inval, false;
          }
          return Success, true;
        }
      }
    }
    var ok := SkipTopic(topic, t, tpos);
    if !ok {
      return Inval, false;
    }
    return Success, false;
  }

  /** mosquitto_topic_matches_sub2: both strings are delimited by their lengths. */
  method MatchesSub2(sub: bytes, topic: bytes) returns (rc: Rc, result: bool)
    ensures Reports(rc, result, MatchOutcome(sub, topic))
  {
    result := false;
    var sublen, topiclen := |sub|, |topic|;
    if sublen == 0 || topiclen == 0 {
      return Inval, false;
    }
    if (sub[0] == DOLLAR && topic[0] != DOLLAR) || (topic[0] == DOLLAR && sub[0] != DOLLAR) {
      return Success, false;
    }
    var spos, tpos := 0, 0;
    while spos < sublen
      invariant 0 <= spos <= sublen && 0 <= tpos <= topiclen
      invariant MatchOutcome(sub, topic) == Walk(sub, spos, topic, tpos)
      invariant !result
    {
      if tpos < topiclen && (topic[tpos] == PLUS || topic[tpos] == HASH) {
        return Inval, false;
      }
      if tpos == topiclen || sub[spos] != topic[tpos] {
        if sub[spos] == PLUS {
          if spos > 0 && sub[spos - 1] != SLASH {
            return Inval, false;
          }
          if spos + 1 < sublen && sub[spos + 1] != SLASH {
            return Inval, false;
          }
          spos := spos + 1;
          ghost var start := tpos;
          while tpos < topiclen && topic[tpos] != SLASH
            invariant start <= tpos <= topiclen
            invariant LevelEnd(topic, start) == LevelEnd(topic, tpos)
            invariant forall k :: start <= k < tpos ==> !Wild(topic[k])
          {
            if topic[tpos] == PLUS || topic[tpos] == HASH {
              assert Wild(topic[tpos]);
              return Inval, false;
            }
            tpos := tpos + 1;
          }
          if tpos == topiclen && spos == sublen {
            return Success, true;
          }
        } else if sub[spos] == HASH {
          if spos > 0 && sub[spos - 1] != SLASH {
            return Inval, false;
          }
          if spos + 1 < sublen {
            return Inval, false;
          } else {
            ghost var start := tpos;
            while tpos < topiclen
              invariant start <= tpos <= topiclen
              invariant forall k :: start <= k < tpos ==> !Wild(topic[k])
            {
              if topic[tpos] == PLUS || topic[tpos] == HASH {
                assert Wild(topic[tpos]);
                return Inval, false;
              }
              tpos := tpos + 1;
            }
            return Success, true;
          }
        } else {
          if tpos == topiclen && spos > 0 && sub[spos - 1] == PLUS && sub[spos] == SLASH
             && spos + 1 < sublen && sub[spos + 1] == HASH {
            return Success, true;
          }
          ghost var start := spos;
          while spos < sublen
            invariant start <= spos <= sublen
            invariant forall k :: start <= k < spos ==> sub[k] == HASH ==> k == sublen - 1
          {
            if sub[spos] == HASH && spos + 1 < sublen {
              assert MisplacedHash(sub, start);
              return Inval, false;
            }
            spos := spos + 1;
          }
          return Success, false;
        }
      } else {
        if tpos + 1 == topiclen {
          if spos + 3 == sublen && sub[spos + 1] == SLASH && sub[spos + 2] == HASH {
            return Success, true;
          }
        }
        spos := spos + 1;
        tpos := tpos + 1;
        if spos == sublen && tpos == topiclen {
          return Success, true;
        } else if tpos == topiclen && sub[spos] == PLUS && spos + 1 == sublen {
          if spos > 0 && sub[spos - 1] != SLASH {
            return Inval, false;
          }
          return Success, true;
        }
      }
    }
    if tpos < topiclen || spos < sublen {
      result := false;
    }
    ghost var start := tpos;
    while tpos < topiclen
      invariant start <= tpos <= topiclen
      invariant forall k :: start <= k < tpos ==> !Wild(topic[k])
    {
      if topic[tpos] == PLUS || topic[tpos] == HASH {
        assert Wild(topic[tpos]);
        return Inval, false;
      }
      tpos := tpos + 1;
    }
    return Success, result;
  }

  /** On NUL-free strings the two matchers agree in code and result, valid input or not. */
  method MatchersAgree(sub: bytes, topic: bytes)
    returns (rc: Rc, result: bool, rc2: Rc, result2: bool)
    requires NUL !in sub && NUL !in topic
    ensures rc == rc2 && result == result2
  {
    var csub, ctopic := sub + [NUL], topic + [NUL];
    rc, result := MatchesSub(csub, ctopic, sub, topic);
    rc2, result2 := MatchesSub2(sub, topic);
  }

  // ----- The walk is the level-wise match -----

  /** A filter whose first level is no wildcard can drop one equal character on both sides. */
  lemma MatchAfterEqual(f: bytes, t: bytes)
    requires f != [] && t != [] && f[0] == t[0] && !Wild(f[0])
    requires WildPlaced(f)
    ensures LevelsMatch(Split(f), Split(t)) == LevelsMatch(Split(f[1..]), Split(t[1..]))
  {
    var fs, ts := Split(f), Split(t);
    var fr, tr := Split(f[1..]), Split(t[1..]);
    SplitHead(f);
    SplitHead(t);
    assert fs != [[HASH]] && fs[0] != [PLUS] by {
      if f[0] != SLASH { assert fs[0][0] == f[0]; }
    }
    if f[0] == SLASH {
    } else {
      WildPlacedTail(f);
      assert fr != [[HASH]] && fr[0] != [PLUS] by {
        if f[1..] != [] && f[1] != SLASH {
          SplitHead(f[1..]);
          assert fr[0][0] == f[1];
        } else {
          SplitFirstEmpty(f[1..]);
        }
      }
      assert fs[0] == ts[0] <==> fr[0] == tr[0] by {
        assert fs[0][1..] == fr[0] && ts[0][1..] == tr[0];
      }
    }
  }

  /** '+' stands for the rest of the current topic level. */
  lemma {:induction false} MatchAfterPlus(f: bytes, i: nat, t: bytes, j: nat)
    requires i < |f| && j <= |t|
    requires f[i] == PLUS && WildPlaced(f)
    ensures LevelsMatch(Split(f[i..]), Split(t[j..])) ==
            LevelsMatch(Split(f[i + 1..]), Split(t[LevelEnd(t, j)..]))
  {
    assert WildPlacedAt(f, i);
    var fi := f[i..];
    assert fi[1..] == f[i + 1..] && fi[0] == PLUS;
    SplitHead(fi);
    SplitFirstEmpty(fi[1..]);
    assert Split(fi)[0] == [PLUS];
    SplitTail(t, j);
    SplitFirstEmpty(t[LevelEnd(t, j)..]);
  }

  lemma {:induction false} SplitTail(t: bytes, j: nat)
    requires j <= |t|
    ensures Split(t[LevelEnd(t, j)..])[1..] == Split(t[j..])[1..]
    decreases |t| - j
  {
    if j == |t| || t[j] == SLASH {
    } else {
      SplitTail(t, j + 1);
      assert t[j..][1..] == t[j + 1..];
      SplitHead(t[j..]);
    }
  }

  /** Different characters, or an exhausted topic, settle the match at once. */
  lemma MatchAtDifference(f: bytes, t: bytes)
    requires f != [] && !Wild(f[0]) && WildPlaced(f)
    requires t == [] || t[0] != f[0]
    ensures LevelsMatch(Split(f), Split(t)) <==> t == [] && f == [SLASH, HASH]
  {
    SplitHead(f);
    SplitFirstEmpty(f);
    SplitFirstEmpty(t);
    if t != [] { SplitHead(t); }
    var fs := Split(f);
    if f[0] == SLASH {
      var fr := Split(f[1..]);
      if t == [] {
        assert LevelsMatch(fs, Split(t)) <==> fr == [[HASH]];
        SplitJoin(f[1..]);
        if fr == [[HASH]] { assert f == [SLASH] + f[1..]; }
      }
    } else {
      assert fs[0][0] == f[0];
      if t != [] && t[0] != SLASH { assert Split(t)[0][0] == t[0]; }
    }
  }

  /** Only the empty topic suffix matches the empty filter suffix. */
  lemma MatchEmptyFilter(t: bytes)
    ensures LevelsMatch(Split([]), Split(t)) <==> t == []
  {
    SplitFirstEmpty(t);
    if t != [] { SplitHead(t); }
  }

  lemma SplitSingle(c: byte)
    requires c != SLASH
    ensures Split([c]) == [[c]]
  {
    assert [c][1..] == [] && [c] + [] == [c];
    SplitHead([c]);
  }

  lemma WildPlacedSuffix(f: bytes, i: nat)
    requires WildPlaced(f) && i <= |f|
    requires i < |f| && Wild(f[i]) ==> i == 0 || f[i - 1] == SLASH
    ensures WildPlaced(f[i..])
  {
    forall k | 0 <= k < |f| - i
      ensures WildPlacedAt(f[i..], k)
    {
      assert WildPlacedAt(f, i + k);
    }
  }

  /** The cursors walk in step: from every state the loop can reach, Walk is the level match. */
  lemma {:induction false} WalkIsLevelMatch(f: bytes, i: nat, t: bytes, j: nat)
    requires i <= |f| && j <= |t|
    requires WildPlaced(f) && Plain(t)
    requires i < |f| || j < |t|
    requires j == |t| && f[i..] == [SLASH, HASH] ==> i > 0 && f[i - 1] == PLUS
    ensures Walk(f, i, t, j) == if LevelsMatch(Split(f[i..]), Split(t[j..])) then Match else NoMatch
    decreases |f| - i
  {
    assert forall k :: 0 <= k < |t| ==> t[k] in t;
    if i == |f| {
      MatchEmptyFilter(t[j..]);
      return;
    }
    assert WildPlacedAt(f, i);
    WildPlacedSuffix(f, i);
    var fi, tj := f[i..], t[j..];
    assert fi[1..] == f[i + 1..];
    if j == |t| || f[i] != t[j] {
      if f[i] == PLUS {
        MatchAtPlus(f, i, t, j);
      } else if f[i] == HASH {
        assert fi == [HASH];
        SplitSingle(HASH);
      } else {
        WalkAtDifference(f, i, t, j);
      }
    } else {
      assert tj[1..] == t[j + 1..];
      MatchAfterEqual(fi, tj);
      MatchAfterStep(f, i, t, j);
    }
  }

  lemma {:induction false} MatchAtPlus(f: bytes, i: nat, t: bytes, j: nat)
    requires i < |f| && j <= |t| && f[i] == PLUS
    requires j == |t| || f[i] != t[j]
    requires WildPlaced(f) && Plain(t)
    ensures Walk(f, i, t, j) == if LevelsMatch(Split(f[i..]), Split(t[j..])) then Match else NoMatch
    decreases |f| - i, 0
  {
    assert WildPlacedAt(f, i);
    assert forall m :: 0 <= m < |t| ==> t[m] in t;
    var k := LevelEnd(t, j);
    MatchAfterPlus(f, i, t, j);
    if k == |t| && i + 1 == |f| {
      MatchEmptyFilter(t[k..]);
      assert f[i + 1..] == [];
    } else {
      WalkIsLevelMatch(f, i + 1, t, k);
    }
  }

  lemma WalkAtDifference(f: bytes, i: nat, t: bytes, j: nat)
    requires i < |f| && j <= |t|
    requires WildPlaced(f) && Plain(t) && !Wild(f[i])
    requires j == |t| || f[i] != t[j]
    requires j == |t| && f[i..] == [SLASH, HASH] ==> i > 0 && f[i - 1] == PLUS
    ensures Walk(f, i, t, j) == if LevelsMatch(Split(f[i..]), Split(t[j..])) then Match else NoMatch
  {
    assert forall k :: 0 <= k < |t| ==> t[k] in t;
    forall k | i <= k < |f| - 1
      ensures f[k] != HASH
    {
      assert WildPlacedAt(f, k);
    }
    WildPlacedSuffix(f, i);
    MatchAtDifference(f[i..], t[j..]);
    if i + 1 < |f| && f[i] == SLASH && f[i + 1] == HASH {
      assert f[i..] == [SLASH, HASH];
    }
  }

  /** The three early answers after an equal character, and the plain step. */
  lemma {:induction false} MatchAfterStep(f: bytes, i: nat, t: bytes, j: nat)
    requires i < |f| && j < |t| && f[i] == t[j]
    requires WildPlaced(f) && Plain(t)
    ensures Walk(f, i, t, j) ==
              if LevelsMatch(Split(f[i + 1..]), Split(t[j + 1..])) then Match else NoMatch
    decreases |f| - i, 0
  {
    assert t[j] in t;
    var fr, tr := f[i + 1..], t[j + 1..];
    if j + 1 == |t| && i + 3 == |f| && f[i + 1] == SLASH && f[i + 2] == HASH {
      assert fr == [SLASH, HASH] && tr == [];
      assert WildPlacedAt(f, i + 2);
      WildPlacedSuffix(f, i + 1);
      MatchAtDifference(fr, tr);
    } else if i + 1 == |f| && j + 1 == |t| {
      MatchEmptyFilter([]);
    } else if j + 1 == |t| && i + 2 == |f| && f[i + 1] == PLUS {
      assert WildPlacedAt(f, i + 1);
      assert fr == [PLUS] && tr == [];
      SplitSingle(PLUS);
    } else {
      assert fr == [SLASH, HASH] ==> i + 3 == |f| && fr[0] == f[i + 1] && fr[1] == f[i + 2];
      WalkIsLevelMatch(f, i + 1, t, j + 1);
    }
  }

  /**
   For every filter and topic the checks accept, the matcher never reports an error and
   answers exactly the level-wise match of section 4.7 of MQTT Version 5.0.
   */
  lemma MatcherIsLevelMatch(f: bytes, t: bytes, broker: bool)
    requires f != [] && t != []
    requires FilterOk(f, broker) && TopicOk(t, broker)
    ensures MatchOutcome(f, t) == if Matches(f, t) then Match else NoMatch
  {
    WildPlacedIsWellFormed(f);
    if !DollarMismatch(f, t) {
      WalkIsLevelMatch(f, 0, t, 0);
      assert f[0..] == f && t[0..] == t;
    }
  }

  // ----- The checks and the tokeniser -----

  lemma SlashesStep(s: bytes, i: nat)
    requires i < |s|
    ensures Slashes(s[..i + 1]) == Slashes(s[..i]) + (if s[i] == SLASH then 1 else 0)
  {
    assert s[..i + 1][..i] == s[..i];
  }

  /** mosquitto_pub_topic_check. */
  method PubTopicCheck(str: bytes, ghost s: bytes, broker: bool) returns (rc: Rc)
    requires CString(str, s)
    ensures rc == if TopicOk(s, broker) then Success else Inval
  {
    var len, hierCount, pos := 0, 0, 0;
    while str[pos] != NUL
      invariant 0 <= pos <= |s| && len == pos
      invariant hierCount == if broker then Slashes(s[..pos]) else 0
      invariant forall k :: 0 <= k < pos ==> !Wild(s[k])
      decreases |s| - pos
    {
      SlashesStep(s, pos);
      if str[pos] == PLUS || str[pos] == HASH {
        assert s[pos] in s;
        return Inval;
      } else if broker && str[pos] == SLASH {
        hierCount := hierCount + 1;
      }
      len := len + 1;
      pos := pos + 1;
    }
    assert s[..pos] == s;
    SlashesAreLevels(s);
    if len > 65535 || hierCount > TOPIC_HIERARCHY_LIMIT {
      return Inval;
    }
    return Success;
  }

  /** mosquitto_pub_topic_check2. */
  method PubTopicCheck2(str: bytes, broker: bool) returns (rc: Rc)
    ensures rc == if TopicOk(str, broker) then Success else Inval
  {
    if |str| > 65535 {
      return Inval;
    }
    var hierCount := 0;
    for i := 0 to |str|
      invariant hierCount == if broker then Slashes(str[..i]) else 0
      invariant forall k :: 0 <= k < i ==> !Wild(str[k])
    {
      SlashesStep(str, i);
      if str[i] == PLUS || str[i] == HASH {
        assert str[i] in str;
        return Inval;
      } else if broker && str[i] == SLASH {
        hierCount := hierCount + 1;
      }
    }
    assert str[..|str|] == str;
    SlashesAreLevels(str);
    if hierCount > TOPIC_HIERARCHY_LIMIT {
      return Inval;
    }
    return Success;
  }

  /** mosquitto_sub_topic_check accepts exactly the filters whose levels are well formed. */
  method SubTopicCheck(str: bytes, ghost s: bytes, broker: bool) returns (rc: Rc)
    requires CString(str, s)
    ensures rc == if FilterOk(s, broker) then Success else Inval
  {
    WildPlacedIsWellFormed(s);
    var c: byte := NUL;
    var len, hierCount, pos := 0, 0, 0;
    while str[pos] != NUL
      invariant 0 <= pos <= |s| && len == pos
      invariant c == if pos == 0 then NUL else s[pos - 1]
      invariant hierCount == if broker then Slashes(s[..pos]) else 0
      invariant forall k :: 0 <= k < pos ==> WildPlacedAt(s, k)
      decreases |s| - pos
    {
      SlashesStep(s, pos);
      if str[pos] == PLUS {
        if (c != NUL && c != SLASH) || (str[pos + 1] != NUL && str[pos + 1] != SLASH) {
          assert !WildPlacedAt(s, pos);
          return Inval;
        }
      } else if str[pos] == HASH {
        if (c != NUL && c != SLASH) || str[pos + 1] != NUL {
          assert !WildPlacedAt(s, pos);
          return Inval;
        }
      } else if broker && str[pos] == SLASH {
        hierCount := hierCount + 1;
      }
      len := len + 1;
      c := str[pos];
      pos := pos + 1;
    }
    assert s[..pos] == s;
    SlashesAreLevels(s);
    if len > 65535 || hierCount > TOPIC_HIERARCHY_LIMIT {
      return Inval;
    }
    return Success;
  }

  /** The rules as the check with a length reads them: a level can also begin after a NUL. */
  predicate LooselyPlacedAt(s: bytes, i: nat)
    requires i < |s|
  {
    && (Wild(s[i]) ==> i == 0 || s[i - 1] == SLASH || s[i - 1] == NUL)
    && (s[i] == PLUS ==> i + 1 == |s| || s[i + 1] == SLASH)
    && (s[i] == HASH ==> i + 1 == |s|)
  }

  predicate LooselyPlaced(s: bytes) {
    forall i :: 0 <= i < |s| ==> LooselyPlacedAt(s, i)
  }

  /** Some wildcard stands behind a NUL. */
  predicate WildAfterNul(s: bytes) {
    exists i :: 0 < i < |s| && Wild(s[i]) && s[i - 1] == NUL
  }

  /**
   What is accepted by the length-delimited check is a filter if and only if no wildcard stands
   behind a NUL; every filter is accepted.
   */
  lemma LooseIsFilterExactly(s: bytes, broker: bool)
    ensures FilterOk(s, broker) <==> SizeOk(s, broker) && LooselyPlaced(s) && !WildAfterNul(s)
  {
    WildPlacedIsWellFormed(s);
    if LooselyPlaced(s) && !WildAfterNul(s) {
      assert forall i :: 0 <= i < |s| && LooselyPlacedAt(s, i) ==> WildPlacedAt(s, i);
    }
    if WildPlaced(s) {
      assert forall i :: 0 <= i < |s| && WildPlacedAt(s, i) ==> LooselyPlacedAt(s, i);
      assert forall i :: 0 < i < |s| && WildPlacedAt(s, i) ==> !Wild(s[i]) || s[i - 1] != NUL;
    }
  }

  /** The three bytes 'a', NUL, '+' are accepted, though '+' does not fill its level. */
  lemma WildAfterNulExample(broker: bool)
    ensures var s := [0x61, NUL, PLUS];
            SizeOk(s, broker) && LooselyPlaced(s) && !FilterOk(s, broker)
  {
    var s := [0x61, NUL, PLUS];
    assert Wild(s[2]) && s[1] == NUL;
    LooseIsFilterExactly(s, broker);
    ShortIsFlat(s);
  }

  /** A short string has few levels. */
  lemma {:induction false} ShortIsFlat(s: bytes)
    ensures |Split(s)| <= |s| + 1
  {
    if s == [] {
    } else {
      ShortIsFlat(s[1..]);
    }
  }

  /** mosquitto_sub_topic_check2, for any string. */
  method SubTopicCheck2(str: bytes, broker: bool) returns (rc: Rc)
    ensures rc == if SizeOk(str, broker) && LooselyPlaced(str) then Success else Inval
  {
    if |str| > 65535 {
      return Inval;
    }
    var c: byte := NUL;
    var hierCount := 0;
    for i := 0 to |str|
      invariant c == if i == 0 then NUL else str[i - 1]
      invariant hierCount == if broker then Slashes(str[..i]) else 0
      invariant forall k :: 0 <= k < i ==> LooselyPlacedAt(str, k)
    {
      SlashesStep(str, i);
      if str[i] == PLUS {
        if (c != NUL && c != SLASH) || (i < |str| - 1 && str[i + 1] != SLASH) {
          assert !LooselyPlacedAt(str, i);
          return Inval;
        }
      } else if str[i] == HASH {
        if (c != NUL && c != SLASH) || i < |str| - 1 {
          assert !LooselyPlacedAt(str, i);
          return Inval;
        }
      } else if broker && str[i] == SLASH {
        hierCount := hierCount + 1;
      }
      c := str[i];
    }
    assert str[..|str|] == str;
    SlashesAreLevels(str);
    if hierCount > TOPIC_HIERARCHY_LIMIT {
      return Inval;
    }
    return Success;
  }

  /** A level as the tokeniser leaves it in its array: a null pointer when it is empty. */
  datatype Token = Null | Level(text: bytes)

  function TokenText(t: Token): bytes {
    if t.Null? then [] else t.text
  }

  predicate TokenIs(t: Token, level: bytes) {
    TokenText(t) == level && (t.Null? <==> level == [])
  }

  /** Splitting at a '/' splits the list of levels. */
  lemma {:induction false} SplitAt(s: bytes, level: bytes, rest: bytes)
    requires s == level + [SLASH] + rest && SLASH !in level
    ensures Split(s) == [level] + Split(rest)
  {
    if level == [] {
      assert s[1..] == rest;
    } else {
      assert s[0] == level[0] && level[0] in level;
      assert s[1..] == level[1..] + [SLASH] + rest;
      SplitAt(s[1..], level[1..], rest);
      assert [s[0]] + level[1..] == level;
    }
  }

  lemma {:induction false} SplitNone(s: bytes)
    requires SLASH !in s
    ensures Split(s) == [s]
  {
    if s == [] {
    } else {
      SplitNone(s[1..]);
      assert s[0] in s;
      assert [s[0]] + s[1..] == s;
    }
  }

  lemma NextLevel(s: bytes, start: nat, stop: nat, levels: seq<bytes>, hier: nat)
    requires start <= stop <= |s| && hier < |levels|
    requires levels[hier..] == Split(s[start..])
    requires forall k :: start <= k < stop ==> s[k] != SLASH
    requires stop < |s| ==> s[stop] == SLASH
    ensures levels[hier] == s[start..stop]
    ensures if stop < |s| then levels[hier + 1..] == Split(s[stop + 1..]) else hier + 1 == |levels|
    ensures stop < |s| ==> hier + 1 < |levels|
  {
    var level := s[start..stop];
    assert levels[hier] == levels[hier..][0];
    if stop < |s| {
      assert s[start..] == level + [SLASH] + s[stop + 1..];
      SplitAt(s[start..], level, s[stop + 1..]);
      assert levels[hier + 1..] == levels[hier..][1..];
    } else {
      assert s[start..] == level;
      SplitNone(level);
    }
  }

  /** The counting loop of the tokeniser. */
  method CountLevels(subtopic: bytes, ghost s: bytes) returns (hierCount: nat)
    requires CString(subtopic, s)
    ensures hierCount == |Split(s)|
  {
    var len := |subtopic| - 1;
    hierCount := 1;
    for i := 0 to len
      invariant hierCount == 1 + Slashes(s[..i])
    {
      SlashesStep(s, i);
      if subtopic[i] == SLASH {
        hierCount := hierCount + 1;
      }
    }
    assert s[..len] == s;
    SlashesAreLevels(s);
  }

  /** mosquitto_sub_topic_tokenise: the array is filled exactly, and with the levels of the topic. */
  method Tokenise(subtopic: bytes, ghost s: bytes) returns (topics: array<Token>, count: nat)
    requires CString(subtopic, s)
    ensures fresh(topics) && count == topics.Length == |Split(s)|
    ensures forall k :: 0 <= k < count ==> TokenIs(topics[k], Split(s)[k])
  {
    var len := |subtopic| - 1;
    var hierCount := CountLevels(subtopic, s);
    topics := new Token[hierCount](_ => Null);
    ghost var levels := Split(s);
    assert levels[0..] == levels && s[0..] == s;
    var start, hier := 0, 0;
    for i := 0 to len + 1
      invariant i <= len ==> 0 <= start <= i && hier < hierCount
      invariant i <= len ==> levels[hier..] == Split(s[start..])
      invariant forall k :: start <= k < i && k < len ==> s[k] != SLASH
      invariant i == len + 1 ==> hier == hierCount
      invariant forall k :: 0 <= k < hier ==> TokenIs(topics[k], levels[k])
      invariant forall k :: hier <= k < hierCount ==> topics[k].Null?
    {
      if subtopic[i] == SLASH || subtopic[i] == NUL {
        var stop := i;
        NextLevel(s, start, stop, levels, hier);
        assert subtopic[start..stop] == s[start..stop];
        if start != stop {
          topics[hier] := Level(subtopic[start..stop]);
        }
        start := i + 1;
        hier := hier + 1;
      }
    }
    count := hierCount;
  }
}
