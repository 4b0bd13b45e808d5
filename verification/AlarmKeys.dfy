/**
 The text of the alarm cache's Redis keys. The model keeps one table per family
 of keys; these lemmas say when the real, flat key space keeps them apart too.
 */
module AlarmKeys {

  import opened AlarmIndex

  datatype RedisKey = GroupKey(group: string) | IndexKey(key: Key)

  function Text(k: RedisKey): string {
    match k
    case GroupKey(g) => "alarm_cache_group_v6_" + g
    case IndexKey(DeviceKey(d)) => "alarm_cach_device_v6_" + d
    case IndexKey(AlarmKey(a, d)) => "alarm_cach_alarm_v6_" + a + "_" + d
    case IndexKey(SceneKey(s)) => "alarm_cach_scene_v6_" + s
  }

  predicate Pair(k: RedisKey) {
    k.IndexKey? && k.key.AlarmKey?
  }

  /** The two ids of an alarm key as they appear in its text. */
  function Joined(k: RedisKey): string
    requires Pair(k)
  {
    k.key.alarm + "_" + k.key.target
  }

  lemma FamilyMarks(k: RedisKey)
    ensures |Text(k)| > 12
    ensures Text(k)[10] == (if k.GroupKey? then 'e' else '_')
    ensures k.IndexKey? ==> Text(k)[11] == (if k.key.DeviceKey? then 'd' else if k.key.AlarmKey? then 'a' else 's')
  {
  }

  lemma SamePrefix(p: string, a: string, b: string)
    requires p + a == p + b
    ensures a == b
  {
    assert (p + a)[|p|..] == a;
    assert (p + b)[|p|..] == b;
  }

  lemma AlarmText(k: RedisKey)
    requires Pair(k)
    ensures Text(k) == "alarm_cach_alarm_v6_" + Joined(k)
  {
  }

  /** Two keys share their text only if both are alarm keys with one joined id. */
  lemma Collisions(k: RedisKey, l: RedisKey)
    ensures Text(k) == Text(l) <==> k == l || (Pair(k) && Pair(l) && Joined(k) == Joined(l))
  {
    FamilyMarks(k);
    FamilyMarks(l);
    if Pair(k) && Pair(l) {
      AlarmText(k);
      AlarmText(l);
    }
    if Text(k) == Text(l) {
      match k {
        case GroupKey(g) => SamePrefix("alarm_cache_group_v6_", g, l.group);
        case IndexKey(DeviceKey(d)) => SamePrefix("alarm_cach_device_v6_", d, l.key.device);
        case IndexKey(SceneKey(s)) => SamePrefix("alarm_cach_scene_v6_", s, l.key.scene);
        case IndexKey(AlarmKey(_, _)) => SamePrefix("alarm_cach_alarm_v6_", Joined(k), Joined(l));
      }
    }
  }

  lemma NoMarkBefore(b: string, e: string)
    requires '_' !in b
    ensures forall i :: 0 <= i < |b| ==> (b + "_" + e)[i] != '_'
  {
    assert forall i :: 0 <= i < |b| ==> (b + "_" + e)[i] == b[i];
  }

  /** A joined id splits back in one way when the alarm ids hold no underscore. */
  lemma SplitsOnce(a: string, d: string, b: string, e: string)
    requires '_' !in a && '_' !in b
    requires a + "_" + d == b + "_" + e
    ensures a == b && d == e
  {
    NoMarkBefore(a, d);
    NoMarkBefore(b, e);
    var s, t := a + "_" + d, b + "_" + e;
    assert s[|a|] == '_' && t[|b|] == '_';
    assert a == s[..|a|] && b == t[..|b|];
    assert d == s[|a| + 1..] && e == t[|b| + 1..];
  }

  predicate Plain(k: RedisKey) {
    Pair(k) ==> '_' !in k.key.alarm
  }

  /** With underscore-free alarm ids (the ids are UUIDs) every key has its own text. */
  lemma TextInjective(k: RedisKey, l: RedisKey)
    requires Plain(k) && Plain(l) && Text(k) == Text(l)
    ensures k == l
  {
    Collisions(k, l);
    if k != l {
      SplitsOnce(k.key.alarm, k.key.target, l.key.alarm, l.key.target);
    }
  }

  /** Without that, two different (alarm, device) pairs can share a list. */
  lemma UnderscoreCollides()
    ensures Text(IndexKey(AlarmKey("a_b", "c"))) == Text(IndexKey(AlarmKey("a", "b_c")))
  {
    assert Joined(IndexKey(AlarmKey("a_b", "c"))) == Joined(IndexKey(AlarmKey("a", "b_c")));
    Collisions(IndexKey(AlarmKey("a_b", "c")), IndexKey(AlarmKey("a", "b_c")));
  }
}
