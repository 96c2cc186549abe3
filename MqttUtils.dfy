/** MQTT topic-filter matching: topics are split into levels at '/', and a
    subscription filter matches a topic level by level, '+' standing for
    exactly one level and a final '#' for all remaining levels (sections
    4.7.1.2 and 4.7.1.3 of MQTT 3.1.1). The code departs from the standard
    in three ways this model keeps: empty levels are dropped, only the
    first eight levels are looked at, and a level of 64 or more bytes
    makes the whole match fail. A C string is modelled by its bytes before
    the terminating NUL, so lengths are counted in bytes, as split_topic
    counts them: a character whose UTF-8 encoding takes three bytes is
    three elements here. */
module MqttUtils {

  /** One byte of a C string: never the terminating NUL. */
  type CChar = c: char | 0 < c as int < 0x100 witness 'a'

  /** A NUL-terminated C string, by its bytes before the NUL. */
  type CString = seq<CChar>

  /** MAX_TOPIC_LAYERS. */
  const MaxTopicLayers: nat := 8

  /** MAX_LAYER_LENGTH: a level must be shorter than this. */
  const MaxLayerLength: nat := 64

  /** The length of the level `t` starts with: the bytes before the
      first '/', or all of them. */
  function SegLen(t: CString): (n: nat)
    ensures n <= |t| && (n < |t| ==> t[n] == '/')
    ensures forall j :: 0 <= j < n ==> t[j] != '/'
  {
    if t == [] || t[0] == '/' then 0 else 1 + SegLen(t[1..])
  }

  /** The non-empty '/'-separated levels of a topic, in order. */
  function Levels(t: CString): (r: seq<CString>)
    ensures forall i :: 0 <= i < |r| ==> r[i] != [] && '/' !in r[i]
    decreases |t|
  {
    if t == [] then []
    else if t[0] == '/' then Levels(t[1..])
    else
      var n := SegLen(t);
      [t[..n]] + Levels(t[n..])
  }

  /** The outcome of split_topic: -1, or the levels it copied. */
  datatype Split = TooLong | Layers(layers: seq<CString>)

  /** The levels split_topic looks at: the first eight. */
  function Inspected(t: CString): (r: seq<CString>)
    ensures |r| <= MaxTopicLayers && |r| <= |Levels(t)| && r == Levels(t)[..|r|]
    ensures |r| == MaxTopicLayers || r == Levels(t)
  {
    var all := Levels(t);
    if |all| <= MaxTopicLayers then all else all[..MaxTopicLayers]
  }

  /** Every level is shorter than 64 bytes. */
  predicate AllShort(ls: seq<CString>) {
    forall i :: 0 <= i < |ls| ==> |ls[i]| < MaxLayerLength
  }

  /** split_topic as a definition: the first eight levels, unless one of
      them is 64 bytes or longer. */
  function SplitSpec(t: CString): Split {
    if AllShort(Inspected(t)) then Layers(Inspected(t)) else TooLong
  }

  /** Whether filter levels `f` match topic levels `t`: '#' as the last
      filter level matches all that remains, '#' anywhere else matches
      nothing, '+' matches exactly one level and any other filter level
      only an equal one. */
  function Matches(f: seq<CString>, t: seq<CString>): bool
    decreases |f|
  {
    if f == [] then t == []
    else if f[0] == "#" then |f| == 1
    else if t == [] then false
    else (f[0] == "+" || f[0] == t[0]) && Matches(f[1..], t[1..])
  }

  /** mqtt_topic_match as a definition. */
  function TopicMatchSpec(subscribed: CString, actual: CString): bool {
    match (SplitSpec(subscribed), SplitSpec(actual))
    case (Layers(f), Layers(t)) => Matches(f, t)
    case _ => false
  }

  /** A slice of a slice is a slice. */
  lemma SliceShift(t: CString, i: nat)
    requires i < |t|
    ensures t[i..][1..] == t[i + 1..]
  {
  }

  /** The first '/' of `t` is at `e`, or there is none and `e` is the end. */
  lemma {:induction false} SegLenAt(t: CString, e: nat)
    requires e <= |t| && (e == |t| || t[e] == '/')
    requires forall j :: 0 <= j < e ==> t[j] != '/'
    ensures SegLen(t) == e
  {
    if e > 0 {
      assert t[0] != '/';
      var u := t[1..];
      assert forall j :: 0 <= j < e - 1 ==> u[j] == t[j + 1];
      SegLenAt(u, e - 1);
    }
  }

  /** The level at the front of `t`, when `t` does not start with '/',
      runs up to the first '/' (at `e`) or the end. */
  lemma LevelsFront(t: CString, e: nat)
    requires t != [] && t[0] != '/' && e <= |t|
    requires forall j :: 0 <= j < e ==> t[j] != '/'
    requires e == |t| || t[e] == '/'
    ensures Levels(t) == [t[..e]] + Levels(t[e..])
  {
    SegLenAt(t, e);
  }

  /** The loop of split_topic that skips consecutive '/': the levels from
      the new position are those from the old one. */
  method SkipSlashes(topic: CString, from: nat) returns (start: nat)
    requires from <= |topic|
    ensures from <= start <= |topic| && (start < |topic| ==> topic[start] != '/')
    ensures Levels(topic[from..]) == Levels(topic[start..])
  {
    start := from;
    while start < |topic| && topic[start] == '/'
      invariant from <= start <= |topic|
      invariant Levels(topic[from..]) == Levels(topic[start..])
      decreases |topic| - start
    {
      SliceShift(topic, start);
      start := start + 1;
    }
  }

  /** strchr(start, '/'), or the end of the string when there is none. */
  method FindSlash(topic: CString, start: nat) returns (end: nat)
    requires start <= |topic|
    ensures start <= end <= |topic| && (end < |topic| ==> topic[end] == '/')
    ensures forall j :: start <= j < end ==> topic[j] != '/'
  {
    end := start;
    while end < |topic| && topic[end] != '/'
      invariant start <= end <= |topic|
      invariant forall j :: start <= j < end ==> topic[j] != '/'
      decreases |topic| - end
    {
      end := end + 1;
    }
  }

  /** The level split_topic copies next is the first level of what is
      left of the topic. */
  lemma NextLevel(topic: CString, start: nat, end: nat)
    requires start < end <= |topic| && topic[start] != '/' && (end < |topic| ==> topic[end] == '/')
    requires forall j :: start <= j < end ==> topic[j] != '/'
    ensures Levels(topic[start..]) == [topic[start..end]] + Levels(topic[end..])
  {
    LevelsFront(topic[start..], end - start);
    assert topic[start..][..end - start] == topic[start..end];
    assert topic[start..][end - start..] == topic[end..];
  }

  /** A level of 64 bytes or more among the first eight makes
      split_topic fail. */
  lemma LongLevelFails(topic: CString, layers: seq<CString>, level: CString, rest: seq<CString>)
    requires Levels(topic) == layers + [level] + rest
    requires |layers| < MaxTopicLayers && |level| >= MaxLayerLength
    ensures SplitSpec(topic) == TooLong
  {
    assert Inspected(topic)[|layers|] == level;
  }

  /** split_topic(topic, layers): returns -1 if a level it inspects is 64
      bytes or longer, otherwise the number of levels copied, at most
      eight, with the levels themselves. */
  method SplitTopic(topic: CString) returns (count: int, layers: seq<CString>)
    ensures count == -1 <==> SplitSpec(topic) == TooLong
    ensures count != -1 ==> SplitSpec(topic) == Layers(layers) && count == |layers|
  {
    count := 0;
    layers := [];
    var start := 0;
    while start < |topic| && count < MaxTopicLayers
      invariant 0 <= start <= |topic| && count == |layers| <= MaxTopicLayers
      invariant Levels(topic) == layers + Levels(topic[start..])
      invariant AllShort(layers)
      decreases |topic| - start
    {
      start := SkipSlashes(topic, start);
      if start == |topic| {
        break;
      }
      var end := FindSlash(topic, start);
      NextLevel(topic, start, end);
      var len := end - start;
      if len >= MaxLayerLength {
        LongLevelFails(topic, layers, topic[start..end], Levels(topic[end..]));
        return -1, layers;
      }
      layers := layers + [topic[start..end]];
      count := count + 1;
      start := end;
    }
    if start == |topic| {
      assert topic[start..] == [];
    }
    assert Inspected(topic) == layers;
  }

  /** mqtt_topic_match(subscribed, actual). */
  method TopicMatch(subscribed: CString, actual: CString) returns (r: bool)
    ensures r == TopicMatchSpec(subscribed, actual)
  {
    var subCnt, subLayers := SplitTopic(subscribed);
    var actCnt, actLayers := SplitTopic(actual);
    if subCnt < 0 || actCnt < 0 {
      return false;
    }
    var s, a := 0, 0;
    while s < subCnt && a < actCnt
      invariant 0 <= s <= subCnt && s == a <= actCnt
      invariant Matches(subLayers, actLayers) == Matches(subLayers[s..], actLayers[a..])
      decreases subCnt - s
    {
      assert subLayers[s..][1..] == subLayers[s + 1..] && actLayers[a..][1..] == actLayers[a + 1..];
      if subLayers[s] == "#" {
        return s == subCnt - 1;
      }
      if subLayers[s] == "+" || subLayers[s] == actLayers[a] {
        s := s + 1;
        a := a + 1;
      } else {
        return false;
      }
    }
    if s == subCnt && a == actCnt {
      return true;
    }
    if s == subCnt - 1 && subLayers[s] == "#" {
      return true;
    }
    return false;
  }

  /** Empty levels are dropped: leading, trailing and doubled '/' add
      nothing. */
  lemma DropsEmptyLevels()
    ensures Levels("/a//b/") == ["a", "b"]
  {
    assert "/a//b/"[1..] == "a//b/";
    LevelsFront("a//b/", 1);
    assert "a//b/"[..1] == "a" && "a//b/"[1..] == "//b/";
    assert "//b/"[1..] == "/b/" && "/b/"[1..] == "b/";
    LevelsFront("b/", 1);
    assert "b/"[..1] == "b" && "b/"[1..] == "/" && "/"[1..] == "";
  }

  /** '/' followed by the next level. */
  function Join(ls: seq<CString>): CString
  {
    if ls == [] then [] else if |ls| == 1 then ls[0] else ls[0] + "/" + Join(ls[1..])
  }

  /** Splitting undoes joining: levels that are non-empty and hold no '/'
      come back unchanged from their '/'-joined topic. */
  lemma {:induction false} SplitJoin(ls: seq<CString>)
    requires forall i :: 0 <= i < |ls| ==> ls[i] != [] && '/' !in ls[i]
    ensures Levels(Join(ls)) == ls
    decreases |ls|
  {
    if ls == [] {
    } else if |ls| == 1 {
      var l := ls[0];
      LevelsFront(l, |l|);
      assert l[..|l|] == l && l[|l|..] == [];
    } else {
      var l := ls[0];
      var rest := Join(ls[1..]);
      var t := l + "/" + rest;
      assert forall j :: 0 <= j < |l| ==> t[j] == l[j];
      LevelsFront(t, |l|);
      assert t[..|l|] == l;
      assert t[|l|..] == "/" + rest;
      assert ("/" + rest)[1..] == rest;
      SplitJoin(ls[1..]);
      assert ls == [l] + ls[1..];
    }
  }

  /** split_topic yields at most eight levels, each shorter than 64
      bytes and the first levels of the topic, and it fails exactly
      when one of the first eight levels is too long. */
  lemma SplitBounds(t: CString)
    ensures SplitSpec(t).Layers? ==> |SplitSpec(t).layers| <= MaxTopicLayers
    ensures SplitSpec(t).Layers? ==> AllShort(SplitSpec(t).layers)
    ensures SplitSpec(t).Layers? ==> SplitSpec(t).layers == Levels(t)[..|SplitSpec(t).layers|]
    ensures SplitSpec(t) == TooLong <==> exists i :: 0 <= i < |Levels(t)| && i < MaxTopicLayers && |Levels(t)[i]| >= MaxLayerLength
  {
    var kept := Inspected(t);
    if exists i :: 0 <= i < |Levels(t)| && i < MaxTopicLayers && |Levels(t)[i]| >= MaxLayerLength {
      var i :| 0 <= i < |Levels(t)| && i < MaxTopicLayers && |Levels(t)[i]| >= MaxLayerLength;
      assert kept[i] == Levels(t)[i];
    }
  }

  /** A filter level '+' matches exactly one topic level. */
  lemma PlusMatchesOneLevel(t: seq<CString>)
    ensures Matches(["+"], t) <==> |t| == 1
  {
    if |t| >= 1 {
      assert ["+"][1..] == [];
    }
  }

  /** A '#' that is not the filter's last level makes the match fail. */
  lemma {:induction false} HashOnlyLast(f: seq<CString>, t: seq<CString>, i: nat)
    requires i < |f| - 1 && f[i] == "#"
    ensures !Matches(f, t)
    decreases i
  {
    if f[0] != "#" && t != [] && i > 0 {
      assert f[1..][i - 1] == "#";
      HashOnlyLast(f[1..], t[1..], i - 1);
    }
  }

  /** No filter level is a wildcard. */
  predicate Literal(f: seq<CString>) {
    forall i :: 0 <= i < |f| ==> f[i] != "+" && f[i] != "#"
  }

  /** No filter level is '#'. */
  predicate NoHash(f: seq<CString>) {
    forall i :: 0 <= i < |f| ==> f[i] != "#"
  }

  /** A filter without wildcards matches exactly the topic with the same
      levels. */
  lemma {:induction false} LiteralMatchesItself(f: seq<CString>, t: seq<CString>)
    requires Literal(f)
    ensures Matches(f, t) <==> f == t
    decreases |f|
  {
    if f != [] && f[0] != "#" && t != [] {
      LiteralMatchesItself(f[1..], t[1..]);
      if f[1..] == t[1..] && f[0] == t[0] {
        assert f == [f[0]] + f[1..] && t == [t[0]] + t[1..];
      }
    }
  }

  /** A filter ending in '#' matches the topics that have at least as many
      levels as the rest of the filter and whose first levels that rest
      matches, including the topic with no further level. */
  lemma {:induction false} HashMatchesRest(f: seq<CString>, t: seq<CString>)
    requires NoHash(f)
    ensures Matches(f + ["#"], t) <==> |f| <= |t| && Matches(f, t[..|f|])
    decreases |f|
  {
    if f == [] {
      assert t[..0] == [];
    } else {
      assert (f + ["#"])[0] == f[0];
      assert (f + ["#"])[1..] == f[1..] + ["#"];
      if t != [] {
        HashMatchesRest(f[1..], t[1..]);
        if |f| <= |t| {
          assert t[..|f|][1..] == t[1..][..|f| - 1];
        }
      }
    }
  }

  /** A topic with a level of 64 or more bytes among its first eight
      matches no filter, and no topic matches such a filter. */
  lemma LongLevelNeverMatches(subscribed: CString, actual: CString, i: nat)
    requires i < |Levels(actual)| && i < MaxTopicLayers && |Levels(actual)[i]| >= MaxLayerLength
    ensures !TopicMatchSpec(subscribed, actual) && !TopicMatchSpec(actual, subscribed)
  {
    SplitBounds(actual);
  }
}
