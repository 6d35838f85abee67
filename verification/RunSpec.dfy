/** Replica names and the index inside them (src/lib/run-spec.ts). */
module RunSpec {
  import opened Wrappers
  import opened Text

  function Base(containerName: string, slot: string): string {
    containerName + "-" + slot
  }

  /** A number stands in the name of every replica but the first. */
  function ReplicaName(containerName: string, slot: string, index: int): string {
    if index <= 1 then Base(containerName, slot)
    else Base(containerName, slot) + "-" + Decimal(index)
  }

  function ReplicaIndex(name: string, containerName: string, slot: string): Option<nat> {
    var base := Base(containerName, slot);
    if name == base then Some(1)
    else if !(base + "-" <= name) then None
    else
      var suffix := name[|base| + 1..];
      if AllDigits(suffix) then Some(DecimalValue(suffix)) else None
  }

  /** The index of a replica's name is the replica's index. */
  lemma ReplicaNamesReadBack(containerName: string, slot: string, index: int)
    ensures ReplicaIndex(ReplicaName(containerName, slot, index), containerName, slot) == Some(Max(1, index))
  {
    if index > 1 {
      var base, suffix := Base(containerName, slot), Decimal(index);
      DecimalRoundTrip(index);
      assert ReplicaName(containerName, slot, index) == base + "-" + suffix;
      assert (base + "-" + suffix)[|base| + 1..] == suffix;
    }
  }

  /** A name read as index `i` is the name of replica `i` if and only if its number, when it has one, is
      at least 2 and has no leading zero: `-1`, `-0` and `-02` are read but never given out. */
  lemma NamesReadAreNamesGiven(name: string, containerName: string, slot: string)
    requires ReplicaIndex(name, containerName, slot).Some?
    ensures ReplicaName(containerName, slot, ReplicaIndex(name, containerName, slot).value) == name <==>
            name == Base(containerName, slot) ||
            (name[|Base(containerName, slot)| + 1] != '0' && ReplicaIndex(name, containerName, slot).value >= 2)
  {
    var base := Base(containerName, slot);
    if name != base {
      var suffix := name[|base| + 1..];
      var i := ReplicaIndex(name, containerName, slot).value;
      assert name == base + "-" + suffix;
      if suffix[0] != '0' {
        CanonicalDigits(suffix);
      } else {
        DecimalRoundTrip(i);
        assert (base + "-" + Decimal(i))[|base| + 1..] == Decimal(i);
      }
    }
  }
}
