/** The client's list of sends still waiting for their acknowledgement,
    and what an acknowledgement does to it. */
module Pending {
  import opened SendCodec

  /** Client sequence numbers strictly increase along the list. */
  predicate Increasing(sending: seq<SendPacket>)
  {
    forall i, j :: 0 <= i < j < |sending| ==> sending[i].clientSeq < sending[j].clientSeq
  }

  /** `handleSendackPacket`'s effect on the list: the first entry with the
      acknowledged client sequence number is dropped. */
  function RemoveFirst(sending: seq<SendPacket>, clientSeq: int): seq<SendPacket>
  {
    if sending == [] then []
    else if sending[0].clientSeq == clientSeq then sending[1..]
    else [sending[0]] + RemoveFirst(sending[1..], clientSeq)
  }

  /** Some pending send carries the client sequence number `q`. */
  predicate Holds(sending: seq<SendPacket>, q: int)
  {
    exists i :: 0 <= i < |sending| && sending[i].clientSeq == q
  }

  lemma {:induction false} RemoveFirstAt(s: seq<SendPacket>, q: int, i: nat)
    requires i < |s| && s[i].clientSeq == q
    requires forall j :: 0 <= j < i ==> s[j].clientSeq != q
    ensures RemoveFirst(s, q) == s[..i] + s[i + 1..]
    decreases i
  {
    if i > 0 {
      RemoveFirstAt(s[1..], q, i - 1);
      assert s[1..][..i - 1] == s[1..i];
      assert s[1..][i..] == s[i + 1..];
      assert [s[0]] + s[1..i] == s[..i];
    }
  }

  lemma {:induction false} RemoveFirstAbsent(s: seq<SendPacket>, q: int)
    requires forall j :: 0 <= j < |s| ==> s[j].clientSeq != q
    ensures RemoveFirst(s, q) == s
    decreases |s|
  {
    if s != [] {
      RemoveFirstAbsent(s[1..], q);
      assert [s[0]] + s[1..] == s;
    }
  }

  lemma {:induction false} RemoveAtIncreasing(s: seq<SendPacket>, i: nat)
    requires Increasing(s) && i < |s|
    ensures Increasing(s[..i] + s[i + 1..])
  {
    var r := s[..i] + s[i + 1..];
    forall a, b | 0 <= a < b < |r|
      ensures r[a].clientSeq < r[b].clientSeq
    {
      var a' := if a < i then a else a + 1;
      var b' := if b < i then b else b + 1;
      assert r[a] == s[a'] && r[b] == s[b'];
    }
  }

  /** After an acknowledgement the list keeps its order and loses exactly
      the acknowledged entry, if there was one: sequence numbers are
      distinct, so none with that number is left. */
  lemma {:induction false} RemoveFirstIncreasing(s: seq<SendPacket>, q: int)
    requires Increasing(s)
    ensures Increasing(RemoveFirst(s, q))
    ensures forall p :: p in RemoveFirst(s, q) ==> p in s && p.clientSeq != q
    ensures |RemoveFirst(s, q)| == if Holds(s, q) then |s| - 1 else |s|
  {
    if i :| 0 <= i < |s| && s[i].clientSeq == q {
      RemoveFirstFound(s, q, i);
    } else {
      RemoveFirstAbsent(s, q);
    }
  }

  lemma RemoveFirstFound(s: seq<SendPacket>, q: int, i: nat)
    requires Increasing(s) && i < |s| && s[i].clientSeq == q
    ensures RemoveFirst(s, q) == s[..i] + s[i + 1..]
    ensures Increasing(RemoveFirst(s, q))
    ensures forall p :: p in RemoveFirst(s, q) ==> p in s && p.clientSeq != q
  {
    RemoveFirstAt(s, q, i);
    RemoveAtIncreasing(s, i);
    var r := s[..i] + s[i + 1..];
    forall p | p in r
      ensures p in s && p.clientSeq != q
    {
      var k :| 0 <= k < |r| && r[k] == p;
      assert p == s[if k < i then k else k + 1];
    }
  }
}
