/** The list of Lora end nodes kept in a device's status (processDeviceLora in cmd/httpapi/main.go). */
module Lora {

  /** What a message leaves in the list: the node's identifier and everything it reported. */
  datatype EndNode = EndNode(devEui: string, report: string)

  /** Some entry of the list is the node's. */
  predicate Has(ns: seq<EndNode>, devEui: string) {
    ns != [] && (ns[0].devEui == devEui || Has(ns[1..], devEui))
  }

  /** No node has two entries. */
  predicate Distinct(ns: seq<EndNode>) {
    ns == [] || (!Has(ns[1..], ns[0].devEui) && Distinct(ns[1..]))
  }

  /** The list without the first entry of the node. */
  function RemoveFirst(ns: seq<EndNode>, devEui: string): seq<EndNode> {
    if ns == [] then []
    else if ns[0].devEui == devEui then ns[1..]
    else [ns[0]] + RemoveFirst(ns[1..], devEui)
  }

  function Upsert(ns: seq<EndNode>, n: EndNode): seq<EndNode> {
    RemoveFirst(ns, n.devEui) + [n]
  }

  lemma RemoveFirstAt(ns: seq<EndNode>, devEui: string, index: nat)
    requires index < |ns| && ns[index].devEui == devEui
    requires forall k :: 0 <= k < index ==> ns[k].devEui != devEui
    ensures RemoveFirst(ns, devEui) == ns[..index] + ns[index + 1..]
  {
    if index > 0 {
      var rest := ns[1..];
      assert forall k :: 0 <= k < index - 1 ==> rest[k] == ns[k + 1];
      RemoveFirstAt(rest, devEui, index - 1);
      calc {
        RemoveFirst(ns, devEui);
        [ns[0]] + (rest[..index - 1] + rest[index..]);
        { assert rest[index..] == ns[index + 1..]; }
        ([ns[0]] + rest[..index - 1]) + ns[index + 1..];
        { assert [ns[0]] + rest[..index - 1] == ns[..index]; }
        ns[..index] + ns[index + 1..];
      }
    }
  }

  lemma HasAt(ns: seq<EndNode>, devEui: string)
    ensures Has(ns, devEui) <==> exists i :: 0 <= i < |ns| && ns[i].devEui == devEui
  {
    if ns != [] {
      HasAt(ns[1..], devEui);
      assert forall k :: 0 < k < |ns| ==> ns[k] == ns[1..][k - 1];
    }
  }

  lemma RemoveAbsent(ns: seq<EndNode>, devEui: string)
    requires !Has(ns, devEui)
    ensures RemoveFirst(ns, devEui) == ns
  {
    if ns != [] {
      RemoveAbsent(ns[1..], devEui);
    }
  }

  /** A slice: the first `len` elements of a backing array that it may share its tail capacity with. */
  class EndNodeList {
    var data: array<EndNode>
    var len: nat

    constructor (ns: array<EndNode>)
      ensures data == ns && len == ns.Length
    {
      data, len := ns, ns.Length;
    }

    ghost predicate Valid()
      reads this
    {
      len <= data.Length
    }

    ghost function Contents(): seq<EndNode>
      reads this, data
      requires Valid()
    {
      data[..len]
    }

    /** Deletes the element at `index` by moving the later ones down in the backing array. */
    method DeleteAt(index: nat)
      requires Valid() && index < len
      modifies this, data
      ensures Valid() && data == old(data) && len == old(len) - 1
      ensures Contents() == old(Contents()[..index] + Contents()[index + 1..])
    {
      var i := index;
      while i + 1 < len
        invariant index <= i < len == old(len) && data == old(data)
        invariant forall k :: 0 <= k < index ==> data[k] == old(data[k])
        invariant forall k :: index <= k < i ==> data[k] == old(data[k + 1])
        invariant forall k :: i < k < data.Length ==> data[k] == old(data[k])
        decreases len - i
      {
        data[i] := data[i + 1];
        i := i + 1;
      }
      len := len - 1;
    }

    /** Appends in place while the backing array has room, and moves to a larger array otherwise. */
    method Append(n: EndNode)
      requires Valid()
      modifies this, data
      ensures Valid() && (data == old(data) || fresh(data))
      ensures Contents() == old(Contents()) + [n]
    {
      if len < data.Length {
        data[len] := n;
      } else {
        ghost var before := data[..len];
        var larger := new EndNode[2 * len + 1](_ => n);
        var i := 0;
        while i < len
          invariant 0 <= i <= len == old(len) && data == old(data) && data[..len] == before
          invariant larger.Length == 2 * len + 1 && fresh(larger)
          invariant forall k :: 0 <= k < i ==> larger[k] == data[k]
        {
          larger[i] := data[i];
          i := i + 1;
        }
        larger[len] := n;
        data := larger;
      }
      len := len + 1;
    }

    /** One message: the node's old entry, if any, is deleted, and the new one appended. */
    method ProcessDeviceLora(connectedDevice: EndNode)
      requires Valid()
      modifies this, data
      ensures Valid() && (data == old(data) || fresh(data))
      ensures Contents() == Upsert(old(Contents()), connectedDevice)
    {
      ghost var before := Contents();
      var index := -1;
      var i := 0;
      while i < len && index == -1
        invariant 0 <= i <= len
        invariant forall k :: 0 <= k < i && k != index ==> data[k].devEui != connectedDevice.devEui
        invariant index != -1 ==> index == i - 1 >= 0 && data[index].devEui == connectedDevice.devEui
        decreases len - i
      {
        if data[i].devEui == connectedDevice.devEui {
          index := i;
        }
        i := i + 1;
      }
      if index != -1 {
        RemoveFirstAt(before, connectedDevice.devEui, index);
        DeleteAt(index);
      } else {
        HasAt(before, connectedDevice.devEui);
        RemoveAbsent(before, connectedDevice.devEui);
      }
      Append(connectedDevice);
    }
  }

  // ---------- Runs ----------

  function AfterMessages(ns: seq<EndNode>, messages: seq<EndNode>): seq<EndNode> {
    if messages == [] then ns
    else Upsert(AfterMessages(ns, messages[..|messages| - 1]), messages[|messages| - 1])
  }

  /** The entries of nodes that do not report, in their order. */
  function Silent(ns: seq<EndNode>, messages: seq<EndNode>): seq<EndNode> {
    if ns == [] then []
    else (if Has(messages, ns[0].devEui) then [] else [ns[0]]) + Silent(ns[1..], messages)
  }

  /** The messages that no later message of the same node supersedes. */
  function LastOfEach(messages: seq<EndNode>): seq<EndNode> {
    if messages == [] then []
    else (if Has(messages[1..], messages[0].devEui) then [] else [messages[0]]) + LastOfEach(messages[1..])
  }

  lemma {:induction false} HasConcat(a: seq<EndNode>, b: seq<EndNode>, devEui: string)
    ensures Has(a + b, devEui) <==> Has(a, devEui) || Has(b, devEui)
    decreases |a|
  {
    if a == [] {
      assert a + b == b;
    } else {
      assert (a + b)[1..] == a[1..] + b;
      HasConcat(a[1..], b, devEui);
    }
  }

  lemma {:induction false} RemoveFromConcat(a: seq<EndNode>, b: seq<EndNode>, devEui: string)
    ensures RemoveFirst(a + b, devEui) == if Has(a, devEui) then RemoveFirst(a, devEui) + b else a + RemoveFirst(b, devEui)
    decreases |a|
  {
    if a == [] {
      assert a + b == b;
    } else {
      assert (a + b)[1..] == a[1..] + b;
      RemoveFromConcat(a[1..], b, devEui);
    }
  }

  lemma {:induction false} SilentHas(ns: seq<EndNode>, messages: seq<EndNode>, devEui: string)
    ensures Has(Silent(ns, messages), devEui) <==> Has(ns, devEui) && !Has(messages, devEui)
    decreases |ns|
  {
    if ns != [] {
      SilentHas(ns[1..], messages, devEui);
      assert [] + Silent(ns[1..], messages) == Silent(ns[1..], messages);
    }
  }

  lemma {:induction false} SilentSnoc(ns: seq<EndNode>, messages: seq<EndNode>, m: EndNode)
    requires Distinct(ns)
    ensures Silent(ns, messages + [m]) == RemoveFirst(Silent(ns, messages), m.devEui)
    decreases |ns|
  {
    if ns != [] {
      var n, rest := ns[0], Silent(ns[1..], messages);
      SilentSnoc(ns[1..], messages, m);
      HasConcat(messages, [m], n.devEui);
      assert [] + rest == rest;
      if n.devEui == m.devEui {
        SilentHas(ns[1..], messages, m.devEui);
        RemoveAbsent(rest, m.devEui);
        assert Silent(ns, messages + [m]) == [] + rest;
      } else {
        assert [] + RemoveFirst(rest, m.devEui) == RemoveFirst(rest, m.devEui);
      }
    }
  }

  lemma {:induction false} LastHas(messages: seq<EndNode>, devEui: string)
    ensures Has(LastOfEach(messages), devEui) <==> Has(messages, devEui)
    decreases |messages|
  {
    if messages != [] {
      LastHas(messages[1..], devEui);
      assert [] + LastOfEach(messages[1..]) == LastOfEach(messages[1..]);
    }
  }

  lemma {:induction false} LastOfEachSnoc(messages: seq<EndNode>, m: EndNode)
    ensures LastOfEach(messages + [m]) == RemoveFirst(LastOfEach(messages), m.devEui) + [m]
    decreases |messages|
  {
    if messages == [] {
      assert messages + [m] == [m];
    } else {
      var n, later := messages[0], messages[1..];
      var rest := LastOfEach(later);
      LastOfEachSnoc(later, m);
      assert (messages + [m])[1..] == later + [m];
      HasConcat(later, [m], n.devEui);
      assert [] + rest == rest;
      if !Has(later, n.devEui) && n.devEui == m.devEui {
        LastHas(later, m.devEui);
        RemoveAbsent(rest, m.devEui);
      }
    }
  }

  lemma {:induction false} SilentDistinct(ns: seq<EndNode>, messages: seq<EndNode>)
    requires Distinct(ns)
    ensures Distinct(Silent(ns, messages))
    decreases |ns|
  {
    if ns != [] {
      SilentDistinct(ns[1..], messages);
      SilentHas(ns[1..], messages, ns[0].devEui);
      assert [] + Silent(ns[1..], messages) == Silent(ns[1..], messages);
    }
  }

  lemma {:induction false} LastDistinct(messages: seq<EndNode>)
    ensures Distinct(LastOfEach(messages))
    decreases |messages|
  {
    if messages != [] {
      LastDistinct(messages[1..]);
      LastHas(messages[1..], messages[0].devEui);
      assert [] + LastOfEach(messages[1..]) == LastOfEach(messages[1..]);
    }
  }

  lemma {:induction false} DistinctConcat(a: seq<EndNode>, b: seq<EndNode>)
    requires Distinct(a) && Distinct(b)
    requires forall devEui :: Has(a, devEui) ==> !Has(b, devEui)
    ensures Distinct(a + b)
    decreases |a|
  {
    if a == [] {
      assert a + b == b;
    } else {
      assert (a + b)[1..] == a[1..] + b;
      DistinctConcat(a[1..], b);
      HasConcat(a[1..], b, a[0].devEui);
    }
  }

  lemma RemoveFromEither(a: seq<EndNode>, b: seq<EndNode>, devEui: string)
    requires Has(a, devEui) ==> !Has(b, devEui)
    ensures RemoveFirst(a + b, devEui) == RemoveFirst(a, devEui) + RemoveFirst(b, devEui)
  {
    RemoveFromConcat(a, b, devEui);
    if Has(a, devEui) {
      RemoveAbsent(b, devEui);
    } else {
      RemoveAbsent(a, devEui);
    }
  }

  lemma SilentNone(ns: seq<EndNode>)
    ensures Silent(ns, []) == ns
  {
    if ns != [] {
      SilentNone(ns[1..]);
    }
  }

  lemma DistinctAfter(ns: seq<EndNode>, messages: seq<EndNode>)
    requires Distinct(ns)
    ensures Distinct(Silent(ns, messages) + LastOfEach(messages))
  {
    SilentDistinct(ns, messages);
    LastDistinct(messages);
    forall devEui ensures Has(Silent(ns, messages), devEui) ==> !Has(LastOfEach(messages), devEui) {
      SilentHas(ns, messages, devEui);
      LastHas(messages, devEui);
    }
    DistinctConcat(Silent(ns, messages), LastOfEach(messages));
  }

  /** After any run of messages the list is the untouched entries in their order, then the last message of each
      reporting node in order of arrival; no node occurs twice. */
  lemma {:induction false} ListAfterRun(ns: seq<EndNode>, messages: seq<EndNode>)
    requires Distinct(ns)
    ensures AfterMessages(ns, messages) == Silent(ns, messages) + LastOfEach(messages)
    ensures Distinct(AfterMessages(ns, messages))
    decreases |messages|
  {
    if messages == [] {
      SilentNone(ns);
      assert Silent(ns, []) + LastOfEach([]) == ns;
    } else {
      var front, m := messages[..|messages| - 1], messages[|messages| - 1];
      assert messages == front + [m];
      ListAfterRun(ns, front);
      SilentSnoc(ns, front, m);
      LastOfEachSnoc(front, m);
      var silent, last := Silent(ns, front), LastOfEach(front);
      RemoveFromEither(silent, last, m.devEui) by {
        SilentHas(ns, front, m.devEui);
        LastHas(front, m.devEui);
      }
      assert messages[..|messages| - 1] == front;
      assert AfterMessages(ns, messages) == RemoveFirst(silent + last, m.devEui) + [m];
      DistinctAfter(ns, messages);
    }
  }
}
