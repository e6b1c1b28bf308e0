/** A convert request encoded by splicing its nodes into the encoding of the
    rest. */
module Splice {
  import opened Options
  import opened Bytes
  import opened Text
  import JsonGrammar
  import StrictJson
  import CanonicalJson

  const MAX_NODES := 4096

  /** The key of the nodes and their opening bracket. */
  const OPEN: bytes := [0x22, 0x6E, 0x6F, 0x64, 0x65, 0x73, 0x22, 0x3A, 0x5B]
  /** The string of a NUL escape and the word nodes. */
  const SLOT_NODE: bytes := [0x22, 0x5C, 0x75, 0x30, 0x30, 0x30, 0x30, 0x6E, 0x6F, 0x64, 0x65, 0x73, 0x22]
  const COMMA: byte := 0x2C
  const CLOSE: byte := 0x5D
  const LBRACE: byte := 0x7B
  const SLOT := OPEN + SLOT_NODE + [CLOSE]

  /** What json.Marshal writes for a request, given what it writes for each
      node: what comes before and after the nodes does not depend on them. */
  function Marshal(before: bytes, nodes: seq<bytes>, after: bytes): bytes {
    before + OPEN + Join(nodes, COMMA) + [CLOSE] + after
  }

  /** bytes.Count: occurrences of p from i on that do not overlap. */
  function Count(s: bytes, p: bytes, i: nat): nat
    requires i <= |s| && p != []
    decreases |s| - i
  {
    var at := Find(s, p, i);
    if at < 0 then 0 else 1 + Count(s, p, at + |p|)
  }

  // The slot cannot overlap itself: its last byte is nowhere else in it

  lemma SlotShape()
    ensures |SLOT| == 23 && |OPEN| == 9 && SLOT[22] == CLOSE && forall i :: 0 <= i < 22 ==> SLOT[i] != CLOSE
    ensures SLOT[..9] == OPEN
  {
  }

  lemma NoOverlap(s: bytes, i: nat, j: nat)
    requires OccursAt(s, i, SLOT) && OccursAt(s, j, SLOT) && i < j
    ensures j >= i + |SLOT|
  {
    SlotShape();
    assert s[i + 22] == CLOSE by { assert s[i..i + 23][22] == s[i + 22]; }
    var there := s[j..j + 23];
    assert forall m :: j <= m < j + 23 ==> s[m] == there[m - j];
  }

  lemma CountSome(s: bytes, i: nat, j: nat)
    requires i <= j < |s| && OccursAt(s, j, SLOT)
    ensures Count(s, SLOT, i) >= 1
  {
    SlotShape();
  }

  /** A count of one leaves one position where the slot occurs. */
  lemma OnePlace(s: bytes, j: nat)
    requires Count(s, SLOT, 0) == 1 && OccursAt(s, j, SLOT)
    ensures Find(s, SLOT, 0) == j
  {
    SlotShape();
    var at := Find(s, SLOT, 0);
    assert j < |s|;
    if at < j {
      NoOverlap(s, at, j);
      CountSome(s, at + |SLOT|, j);
    }
  }

  /** The slot occurs at one position only. */
  ghost predicate OccursOnce(s: bytes) {
    exists j: nat :: OccursAt(s, j, SLOT) && forall k: nat :: OccursAt(s, k, SLOT) ==> k == j
  }

  lemma OnceIff(s: bytes)
    ensures Count(s, SLOT, 0) == 1 <==> OccursOnce(s)
  {
    SlotShape();
    hide OccursAt, SLOT;
    var at := Find(s, SLOT, 0);
    if Count(s, SLOT, 0) == 1 {
      forall k: nat | OccursAt(s, k, SLOT) ensures k == at {
        OnePlace(s, k);
      }
    }
    if OccursOnce(s) {
      var j: nat :| OccursAt(s, j, SLOT) && forall k: nat :: OccursAt(s, k, SLOT) ==> k == j;
      OccursWithin(s, j);
      assert at == j;
      NoMore(s, j);
    }
  }

  lemma OccursWithin(s: bytes, j: nat)
    requires OccursAt(s, j, SLOT)
    ensures j + 23 <= |s|
  {
    SlotShape();
  }

  lemma NoMore(s: bytes, j: nat)
    requires OccursAt(s, j, SLOT) && forall k: nat :: OccursAt(s, k, SLOT) ==> k == j
    ensures j + |SLOT| <= |s| && Count(s, SLOT, j + |SLOT|) == 0
  {
    SlotShape();
  }

  // Encoding

  ghost predicate IsObject(fits: JsonGrammar.FloatRange, node: bytes) {
    |node| > 0 && node[0] == LBRACE && CanonicalJson.IsCanonical(fits, node)
  }

  /** outs are what encoding/json writes for nodes. */
  ghost predicate WritesAll(fits: JsonGrammar.FloatRange, nodes: seq<bytes>, outs: seq<bytes>) {
    |outs| == |nodes| && forall i :: 0 <= i < |nodes| ==> CanonicalJson.Writes(fits, nodes[i], outs[i])
  }

  method AllObjects(nodes: seq<bytes>, fits: JsonGrammar.FloatRange, pooled: StrictJson.Slots) returns (ok: bool)
    requires JsonGrammar.ShortNumbersFit(fits)
    ensures ok <==> forall i :: 0 <= i < |nodes| ==> IsObject(fits, nodes[i])
  {
    hide JsonGrammar.ShortNumbersFit, CanonicalJson.IsCanonical;
    for i := 0 to |nodes|
      invariant forall j :: 0 <= j < i ==> IsObject(fits, nodes[j])
    {
      if |nodes[i]| == 0 || nodes[i][0] != LBRACE {
        return false;
      }
      var canonical := CanonicalJson.CanonicalRaw(nodes[i], fits, pooled);
      if !canonical {
        return false;
      }
    }
    ok := true;
  }

  /** head is json.Marshal's encoding of the request with the slot for its
      nodes. None unless every node is a canonical object and the slot is found
      exactly once; then the bytes are those json.Marshal writes for the whole
      request, whatever it writes around the nodes. */
  method Encode(head: bytes, nodes: seq<bytes>, fits: JsonGrammar.FloatRange, pooled: StrictJson.Slots)
    returns (r: Option<bytes>)
    requires JsonGrammar.ShortNumbersFit(fits)
    ensures r.Some? <==>
      && 0 < |nodes| <= MAX_NODES && (forall i :: 0 <= i < |nodes| ==> IsObject(fits, nodes[i]))
      && OccursOnce(head)
    ensures forall before, after, outs ::
      r.Some? && head == Marshal(before, [SLOT_NODE], after) && WritesAll(fits, nodes, outs) ==>
        r.value == Marshal(before, outs, after)
  {
    hide JsonGrammar.ShortNumbersFit, IsObject, Find, Count, Join, WritesAll, OccursOnce;
    if |nodes| == 0 {
      return None;
    }
    var ok := AllObjects(nodes, fits, pooled);
    if !ok || |nodes| > MAX_NODES {
      return None;
    }
    SlotShape();
    OnceIff(head);
    NotFound(head);
    var at := Find(head, SLOT, 0);
    if at < 0 || Count(head, SLOT, 0) != 1 {
      return None;
    }
    var out := head[..at + |OPEN|] + [];
    JoinNone(nodes);
    for i := 0 to |nodes|
      invariant out == head[..at + |OPEN|] + Join(nodes[..i], COMMA)
    {
      JoinMore(nodes, i);
      if i > 0 {
        out := out + [COMMA];
      }
      out := out + nodes[i];
    }
    assert nodes[..|nodes|] == nodes;
    out := out + [CLOSE];
    out := out + head[at + |SLOT|..];
    r := Some(out);
    forall before, after, outs | head == Marshal(before, [SLOT_NODE], after) && WritesAll(fits, nodes, outs)
      ensures out == Marshal(before, outs, after)
    {
      SameNodes(fits, nodes, outs);
      InPlace(head, before, nodes, after);
    }
  }

  lemma NotFound(head: bytes)
    ensures Find(head, SLOT, 0) < 0 ==> Count(head, SLOT, 0) != 1
  {
  }

  lemma JoinNone(nodes: seq<bytes>)
    ensures Join(nodes[..0], COMMA) == []
  {
  }

  lemma SameNodes(fits: JsonGrammar.FloatRange, nodes: seq<bytes>, outs: seq<bytes>)
    requires JsonGrammar.ShortNumbersFit(fits) && WritesAll(fits, nodes, outs)
    requires forall i :: 0 <= i < |nodes| ==> IsObject(fits, nodes[i])
    ensures outs == nodes
  {
    hide JsonGrammar.ShortNumbersFit, CanonicalJson.Writes, CanonicalJson.IsCanonical;
    forall i | 0 <= i < |nodes| ensures outs[i] == nodes[i] {
      CanonicalJson.CanonicalWrites(fits, nodes[i], outs[i]);
    }
  }

  lemma {:induction false} JoinMore(nodes: seq<bytes>, i: nat)
    requires i < |nodes|
    ensures Join(nodes[..i + 1], COMMA) == Join(nodes[..i], COMMA) + (if i > 0 then [COMMA] else []) + nodes[i]
    decreases |nodes|
  {
    if i > 0 {
      JoinMore(nodes[1..], i - 1);
      assert nodes[..i + 1][1..] == nodes[1..][..i];
      assert nodes[..i][1..] == nodes[1..][..i - 1];
    }
  }

  /** The one slot is where the nodes go. */
  lemma InPlace(head: bytes, before: bytes, nodes: seq<bytes>, after: bytes)
    requires head == Marshal(before, [SLOT_NODE], after) && Count(head, SLOT, 0) == 1
    ensures var at := Find(head, SLOT, 0);
      && 0 <= at <= at + 9 <= at + 23 <= |head|
      && head[..at + 9] + Join(nodes, COMMA) + [CLOSE] + head[at + 23..] == Marshal(before, nodes, after)
  {
    SlotShape();
    var slot := SLOT_NODE + [CLOSE];
    assert |slot| == 14 && SLOT == OPEN + slot;
    assert head == before + (OPEN + slot) + after by {
      MarshalSlot(before, OPEN, SLOT_NODE, [CLOSE], after);
      assert Join([SLOT_NODE], COMMA) == SLOT_NODE;
    }
    Halved(before, OPEN, slot, after);
    OnePlace(head, |before|);
  }

  lemma MarshalSlot(before: bytes, open: bytes, node: bytes, close: bytes, after: bytes)
    ensures before + open + node + close + after == before + (open + (node + close)) + after
  {
  }

  lemma Halved(before: bytes, open: bytes, slot: bytes, after: bytes)
    ensures var head := before + (open + slot) + after;
      && OccursAt(head, |before|, open + slot)
      && head[..|before| + |open|] == before + open
      && head[|before| + |open| + |slot|..] == after
  {
  }
}
