// Node IDs and the node registry (pkg/registry/node_regisry.go).
module NodeRegistry {
  import opened Text

  datatype NodeAddr = NodeAddr(host: string, port: int)

  function GenerateNodeID(id: nat): string {
    "node-" + NatToString(id)
  }

  function GetNodeIdx(nodeID: string): Option<int> {
    Atoi(LastPart(nodeID, '-'))
  }

  // Only the part after the last dash counts: every text in front of it makes
  // another ID of the same index, of which one alone is ever issued.
  lemma NodeIdAliases(front: string, n: nat)
    requires n < INT64_LIMIT
    ensures GetNodeIdx(front + "-" + NatToString(n)) == Some(n)
    ensures front + "-" + NatToString(n) == GenerateNodeID(n) <==> front == "node"
  {
    var digits := NatToString(n);
    var id := front + "-" + digits;
    assert id == front + ['-'] + digits;
    LastPartAfterSeparator(front, '-', digits);
    AtoiOfPrinted(n);
    OneFront(front, digits);
  }

  lemma OneFront(front: string, digits: string)
    ensures front + "-" + digits == "node-" + digits <==> front == "node"
  {
    assert front + "-" + digits == front + ("-" + digits);
    assert "node-" + digits == "node" + ("-" + digits);
    SuffixCancels(front, "node", "-" + digits);
  }

  // An issued ID resolves to the index it was issued for.
  lemma NodeIdRoundTrip(n: nat)
    requires n < INT64_LIMIT
    ensures GetNodeIdx(GenerateNodeID(n)) == Some(n)
  {
    NodeIdAliases("node", n);
  }

  lemma NodeIdInjective(m: nat, n: nat)
    requires GenerateNodeID(m) == GenerateNodeID(n)
    ensures m == n
  {
    assert GenerateNodeID(m)[5..] == NatToString(m) && GenerateNodeID(n)[5..] == NatToString(n);
    PrintedValue(m);
    PrintedValue(n);
  }

  // The last part never holds a minus sign, so no string whatsoever parses to
  // a negative index.
  lemma NodeIdxNeverNegative(nodeID: string)
    ensures GetNodeIdx(nodeID).Some? ==> 0 <= GetNodeIdx(nodeID).value < INT64_LIMIT
  {
    var part := LastPart(nodeID, '-');
    assert part != "" ==> part[0] in part;
  }

  // One way to spell the index n as a node ID: any text up to a dash, or none,
  // an optional plus sign, leading zeros, and the printed index.
  ghost predicate Spells(id: string, n: nat, front: string, sign: string, zeros: string) {
    && id == front + (sign + (zeros + NatToString(n)))
    && (front == "" || front[|front| - 1] == '-')
    && (sign == "" || sign == "+")
    && forall k :: 0 <= k < |zeros| ==> zeros[k] == '0'
  }

  lemma SignedDigits(sign: string, zeros: string, n: nat)
    requires (sign == "" || sign == "+") && (forall k :: 0 <= k < |zeros| ==> zeros[k] == '0') && n < INT64_LIMIT
    ensures Atoi(sign + (zeros + NatToString(n))) == Some(n) && '-' !in sign + (zeros + NatToString(n))
  {
    var digits := zeros + NatToString(n);
    ZerosValue(zeros, NatToString(n));
    PrintedValue(n);
    assert IsDigit(digits[0]);
    assert sign == "+" ==> (sign + digits)[1..] == digits;
    assert sign == "" ==> sign + digits == digits;
  }

  lemma SpelledResolves(id: string, n: nat, front: string, sign: string, zeros: string)
    requires Spells(id, n, front, sign, zeros) && n < INT64_LIMIT
    ensures GetNodeIdx(id) == Some(n)
  {
    SignedDigits(sign, zeros, n);
    AfterFront(front, sign + (zeros + NatToString(n)));
  }

  lemma AfterFront(front: string, t: string)
    requires (front == "" || front[|front| - 1] == '-') && '-' !in t
    ensures LastPart(front + t, '-') == t
  {
    if front == "" {
      assert front + t == t && Split(t, '-') == [t];
    } else {
      assert front == front[..|front| - 1] + ['-'];
      LastPartAfterSeparator(front[..|front| - 1], '-', t);
    }
  }

  lemma SpellingOf(id: string, n: nat) returns (front: string, sign: string, zeros: string)
    requires GetNodeIdx(id) == Some(n)
    ensures Spells(id, n, front, sign, zeros)
  {
    front := BeforeLastPart(id, '-');
    var digits;
    sign, digits := UnsignedPart(LastPart(id, '-'), n);
    zeros := LeadingZeros(digits);
  }

  lemma UnsignedPart(t: string, n: nat) returns (sign: string, digits: string)
    requires Atoi(t) == Some(n) && '-' !in t
    ensures t == sign + digits && (sign == "" || sign == "+")
    ensures digits != "" && AllDigits(digits) && DigitsValue(digits) == n
  {
    assert t[0] in t;
    sign := if t[0] == '+' then "+" else "";
    digits := if t[0] == '+' then t[1..] else t;
  }

  // Exactly these IDs name index n, on every string.
  lemma ResolvesExactly(id: string, n: nat)
    ensures GetNodeIdx(id) == Some(n) <==>
      n < INT64_LIMIT && exists front, sign, zeros :: Spells(id, n, front, sign, zeros)
  {
    if GetNodeIdx(id) == Some(n) {
      var front, sign, zeros := SpellingOf(id, n);
    } else if n < INT64_LIMIT {
      if front, sign, zeros :| Spells(id, n, front, sign, zeros) {
        SpelledResolves(id, n, front, sign, zeros);
      }
    }
  }

  // The index ValidateNodeID answers when `count` nodes are registered; None
  // stands for an error.
  function ValidIndex(nodeID: string, count: nat): (r: Option<int>)
    ensures r.Some? ==> 0 <= r.value < count
  {
    var idx := GetNodeIdx(nodeID);
    if idx.None? || idx.value < 0 || idx.value > count - 1 then None else idx
  }

  // Nodes are never unregistered, so an ID stays valid from the moment it is
  // issued, with the same index.
  lemma IssuedIdsStayValid(id: nat, count: nat)
    requires count <= INT64_LIMIT
    ensures ValidIndex(GenerateNodeID(id), count) == if id < count then Some(id) else None
  {
    if id < INT64_LIMIT {
      NodeIdRoundTrip(id);
    } else if ValidIndex(GenerateNodeID(id), count).Some? {
      var digits := NatToString(id);
      assert "node-" + digits == "node" + ['-'] + digits;
      LastPartAfterSeparator("node", '-', digits);
      PrintedValue(id);
      assert IsDigit(digits[0]);
    }
  }

  class NodeRegistryServer {
    var nodes: seq<NodeAddr>
    // What Register has sent on the node channel, in sending order.
    var sent: seq<NodeAddr>

    constructor ()
      ensures nodes == sent == []
    {
      nodes, sent := [], [];
    }

    method Register(address: string, port: int) returns (nodeID: string)
      modifies this
      ensures nodes == old(nodes) + [NodeAddr(address, port)]
      ensures sent == old(sent) + [NodeAddr(address, port)]
      ensures nodeID == "node-" + NatToString(|old(nodes)|)
      ensures |nodes| <= INT64_LIMIT ==> ValidIndex(nodeID, |nodes|) == Some(|nodes| - 1)
    {
      nodes := nodes + [NodeAddr(address, port)];
      var newNodeIdx := |nodes| - 1;
      var newNode := nodes[newNodeIdx];
      sent := sent + [newNode];
      nodeID := GenerateNodeID(newNodeIdx);
      if |nodes| <= INT64_LIMIT {
        IssuedIdsStayValid(newNodeIdx, |nodes|);
      }
    }

    method ValidateNodeID(nodeID: string) returns (r: Option<int>)
      ensures r == ValidIndex(nodeID, |nodes|)
      ensures |nodes| <= INT64_LIMIT ==> forall k: nat :: k < |nodes| && nodeID == GenerateNodeID(k) ==> r == Some(k)
    {
      var nodeIdx := GetNodeIdx(nodeID);
      r := if nodeIdx.None? || nodeIdx.value < 0 || nodeIdx.value > |nodes| - 1 then None else nodeIdx;
      if |nodes| <= INT64_LIMIT {
        forall k: nat | k < |nodes| && nodeID == GenerateNodeID(k) ensures r == Some(k) {
          IssuedIdsStayValid(k, |nodes|);
        }
      }
    }
  }
}
