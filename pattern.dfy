/**
 * The regular expressions the project generator rewrites app.module.ts
 * with. Both have the shape  head [^stop]* tail  where tail begins with
 * the stop character, and neither has the global flag, so String.replace
 * rewrites only the leftmost match.
 */
module Pattern {
  import opened Wrappers
  import opened Text

  /** The regular expression  head [^stop]* tail. */
  datatype Shape = Shape(head: string, stop: char, tail: string)

  predicate WellFormed(p: Shape) { |p.tail| > 0 && p.tail[0] == p.stop }

  /** s[i..e] is a match of p: the head, a run without the stop character, the tail. */
  predicate MatchAt(s: string, p: Shape, i: nat, e: nat) {
    && i + |p.head| + |p.tail| <= e <= |s|
    && s[i..i + |p.head|] == p.head
    && s[e - |p.tail|..e] == p.tail
    && p.stop !in s[i + |p.head|..e - |p.tail|]
  }

  /** No match anywhere in s. */
  ghost predicate NoMatch(s: string, p: Shape) {
    forall i: nat, e: nat :: !MatchAt(s, p, i, e)
  }

  /** At a given start the run [^stop]* must end at the first stop character. */
  lemma MatchEndsAtFirstStop(s: string, p: Shape, i: nat, e: nat)
    requires WellFormed(p) && MatchAt(s, p, i, e)
    ensures e - |p.tail| == i + |p.head| + IndexOf(s[i + |p.head|..], p.stop)
  {
    var body := i + |p.head|;
    var rest := s[body..];
    var j := IndexOf(rest, p.stop);
    var m := e - |p.tail| - body;
    assert rest[m] == s[e - |p.tail|] == p.tail[0] == p.stop;
    assert rest[..m] == s[body..e - |p.tail|];
    assert forall k :: 0 <= k < m ==> rest[k] != p.stop by {
      forall k | 0 <= k < m ensures rest[k] != p.stop {
        assert rest[..m][k] == rest[k];
      }
    }
    assert forall k :: 0 <= k < j ==> rest[k] != p.stop by {
      forall k | 0 <= k < j ensures rest[k] != p.stop {
        assert rest[..j][k] == rest[k];
      }
    }
  }

  /** So a match of p is determined by where it starts. */
  lemma MatchUnique(s: string, p: Shape, i: nat)
    requires WellFormed(p)
    ensures forall e: nat :: MatchAt(s, p, i, e) ==>
      e == i + |p.head| + IndexOf(s[i + |p.head|..], p.stop) + |p.tail|
  {
    forall e: nat | MatchAt(s, p, i, e)
      ensures e == i + |p.head| + IndexOf(s[i + |p.head|..], p.stop) + |p.tail|
    {
      MatchEndsAtFirstStop(s, p, i, e);
    }
  }

  /** The end of the match of p that starts at i, if there is one. */
  function MatchEnd(s: string, p: Shape, i: nat): (r: Option<nat>)
    requires WellFormed(p)
    ensures r.Some? ==> MatchAt(s, p, i, r.value)
  {
    var body := i + |p.head|;
    if body <= |s| && s[i..body] == p.head then
      var j := body + IndexOf(s[body..], p.stop);
      if j + |p.tail| <= |s| && s[j..j + |p.tail|] == p.tail then
        assert s[body..j] == s[body..][..j - body];
        Some(j + |p.tail|)
      else
        None
    else
      None
  }

  /** MatchEnd misses no match: every match starting at i is the one it finds. */
  lemma MatchEndComplete(s: string, p: Shape, i: nat)
    requires WellFormed(p)
    ensures forall e: nat :: MatchAt(s, p, i, e) ==> MatchEnd(s, p, i) == Some(e)
  {
    forall e: nat | MatchAt(s, p, i, e)
      ensures MatchEnd(s, p, i) == Some(e)
    {
      MatchEndFinds(s, p, i, e);
    }
  }

  lemma MatchEndFinds(s: string, p: Shape, i: nat, e: nat)
    requires WellFormed(p) && MatchAt(s, p, i, e)
    ensures MatchEnd(s, p, i) == Some(e)
  {
    MatchEndsAtFirstStop(s, p, i, e);
  }

  /**
   * The leftmost match of p at or after position from, as (start, end):
   * the match String.replace rewrites when the expression is not global.
   */
  function FirstMatch(s: string, p: Shape, from: nat): (r: Option<(nat, nat)>)
    requires WellFormed(p)
    ensures r.Some? ==> from <= r.value.0 && MatchAt(s, p, r.value.0, r.value.1)
    ensures r.Some? ==> forall i: nat, e: nat :: from <= i < r.value.0 ==> !MatchAt(s, p, i, e)
    ensures r.None? ==> forall i: nat, e: nat :: from <= i ==> !MatchAt(s, p, i, e)
    decreases |s| + 1 - from
  {
    if from > |s| then None
    else
      MatchEndComplete(s, p, from);
      match MatchEnd(s, p, from)
      case Some(e) => Some((from, e))
      case None => FirstMatch(s, p, from + 1)
  }

  /** The leftmost match in the whole string. */
  function Leftmost(s: string, p: Shape): (r: Option<(nat, nat)>)
    requires WellFormed(p)
    ensures r.None? <==> NoMatch(s, p)
    ensures r.Some? ==> MatchAt(s, p, r.value.0, r.value.1)
    ensures r.Some? ==> forall i: nat, e: nat :: i < r.value.0 ==> !MatchAt(s, p, i, e)
  {
    FirstMatch(s, p, 0)
  }
}
