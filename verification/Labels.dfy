/** The label vocabulary on which both lookup indexes rest (internal/common/labels/labels.go). */
module Labels {

  const DEVICE_NAME_LABEL := "devicename"
  const DOES_NOT_EXIST_LABEL := "doesnotexist"
  const WORKLOAD_LABEL_PREFIX := "workload/"
  const SELECTOR_LABEL_PREFIX := "selector/"

  predicate HasPrefix(s: string, prefix: string) {
    prefix <= s
  }

  function TrimPrefix(s: string, prefix: string): string {
    if prefix <= s then s[|prefix|..] else s
  }

  function WorkloadLabel(workloadName: string): string {
    WORKLOAD_LABEL_PREFIX + workloadName
  }

  predicate IsWorkloadLabel(name: string) {
    HasPrefix(name, WORKLOAD_LABEL_PREFIX)
  }

  predicate IsSelectorLabel(name: string) {
    HasPrefix(name, SELECTOR_LABEL_PREFIX)
  }

  function CreateSelectorLabel(name: string): string {
    SELECTOR_LABEL_PREFIX + name
  }

  /** A prefixed label is recognised by its prefix, and trimming gives the rest back. */
  lemma PrefixRoundTrip(prefix: string, rest: string)
    ensures HasPrefix(prefix + rest, prefix)
    ensures TrimPrefix(prefix + rest, prefix) == rest
  {
  }

  /** Exactly the constructed labels are recognised, and trimming leaves every other string alone. */
  lemma LabelsExactly(l: string)
    ensures IsWorkloadLabel(l) <==> exists rest :: l == "workload/" + rest
    ensures IsSelectorLabel(l) <==> exists rest :: l == "selector/" + rest
    ensures forall prefix :: !HasPrefix(l, prefix) ==> TrimPrefix(l, prefix) == l
  {
    if IsWorkloadLabel(l) {
      assert l == "workload/" + l[|WORKLOAD_LABEL_PREFIX|..];
    }
    if IsSelectorLabel(l) {
      assert l == "selector/" + l[|SELECTOR_LABEL_PREFIX|..];
    }
  }

  /** Placement labels of different workloads never collide. */
  lemma WorkloadLabelsDistinct(a: string, b: string)
    ensures IsWorkloadLabel(WorkloadLabel(a))
    ensures WorkloadLabel(a) == WorkloadLabel(b) ==> a == b
  {
    PrefixRoundTrip(WORKLOAD_LABEL_PREFIX, a);
    PrefixRoundTrip(WORKLOAD_LABEL_PREFIX, b);
  }

  lemma SelectorLabelsDistinct(a: string, b: string)
    ensures IsSelectorLabel(CreateSelectorLabel(a))
    ensures TrimPrefix(CreateSelectorLabel(a), SELECTOR_LABEL_PREFIX) == a
    ensures CreateSelectorLabel(a) == CreateSelectorLabel(b) ==> a == b
  {
    PrefixRoundTrip(SELECTOR_LABEL_PREFIX, a);
    PrefixRoundTrip(SELECTOR_LABEL_PREFIX, b);
  }
}
