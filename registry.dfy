/**
 * The two registry scans of macshift.cpp, over an abstract registry.
 *
 * A list key (the `Network\{4D36E972-...}` key for `findAdapterId`, the
 * `Class\{4D36E972-...}` key for `setMac`) either cannot be opened or can be
 * enumerated. Enumeration yields its subkeys in order and ends where
 * `RegEnumKeyEx` reports ERROR_NO_MORE_ITEMS; an enumeration step can also
 * fail with another status. For each subkey, the scan opens a key and reads
 * one string value: `Connection\Name` for the first scan, `NetCfgInstanceId`
 * for the second. Both scans stop at the first subkey whose value equals the
 * string they are looking for.
 */
module Registry {

  /** Opening a subkey's key and querying the one value a scan reads. */
  datatype Lookup = CannotOpen | NoValue | Value(text: string)

  /**
   * One step of the enumeration: a subkey with its name, what the scan
   * reads under it and the further data `V` it holds; or a failed step.
   */
  datatype Subkey<+V> = Subkey(name: string, lookup: Lookup, data: V) | EnumError

  /** A list key: unavailable, or the steps of its enumeration before ERROR_NO_MORE_ITEMS. */
  datatype ListKey<+V> = ListUnavailable | ListKey(subkeys: seq<Subkey<V>>)

  datatype ScanError =
    | AdapterListUnavailable   // "Failed to open adapter list key"
    | ClassListUnavailable     // "Failed to open adapter list key in Phase 2"
    | EnumerationFailed        // "Failed to enumerate registry keys"
    | AdapterNameNotFound      // "Failed to find an adapter with the given name; ..."
    | AdapterIdNotFound        // "Failed to find adapter by ID; please run this program as Administrator"
    | WriteRejected            // "Failed to set registry key"

  datatype Result<+T> = Success(value: T) | Failure(error: ScanError)

  /** The value read at a subkey is exactly `target`. */
  predicate Hit(l: Lookup, target: string) {
    l.Value? && l.text == target
  }

  /** Every step is a subkey whose value is not `target`: the scan passes over all of them. */
  predicate PassesOver<V>(s: seq<Subkey<V>>, target: string) {
    forall m :: 0 <= m < |s| ==> s[m].Subkey? && !Hit(s[m].lookup, target)
  }

  /** Index `k` is the first subkey whose value is `target`. */
  predicate FirstHitAt<V>(s: seq<Subkey<V>>, k: nat, target: string) {
    k < |s| && s[k].Subkey? && Hit(s[k].lookup, target) && PassesOver(s[..k], target)
  }

  /** Index `k` is a failed enumeration step before any subkey with value `target`. */
  predicate FirstFailureAt<V>(s: seq<Subkey<V>>, k: nat, target: string) {
    k < |s| && s[k].EnumError? && PassesOver(s[..k], target)
  }

  /** There is at most one first hit, so a scan that stops at a hit stops at the one first hit. */
  lemma FirstHitUnique<V>(s: seq<Subkey<V>>, k1: nat, k2: nat, target: string)
    requires FirstHitAt(s, k1, target) && FirstHitAt(s, k2, target)
    ensures k1 == k2
  {
  }

  /** A scan ends in exactly one way: it passes over everything, hits first, or fails first. */
  lemma {:induction false} ScanEndsOneWay<V>(s: seq<Subkey<V>>, target: string)
    ensures PassesOver(s, target) || (exists k: nat :: FirstHitAt(s, k, target)) || (exists k: nat :: FirstFailureAt(s, k, target))
    ensures PassesOver(s, target) ==> forall k: nat :: !FirstHitAt(s, k, target) && !FirstFailureAt(s, k, target)
    ensures forall k1: nat, k2: nat :: FirstHitAt(s, k1, target) ==> !FirstFailureAt(s, k2, target)
  {
    if !PassesOver(s, target) {
      var m :| 0 <= m < |s| && !(s[m].Subkey? && !Hit(s[m].lookup, target));
      var k := FirstStop(s, target, m);
      if s[k].EnumError? {
        assert FirstFailureAt(s, k, target);
      } else {
        assert FirstHitAt(s, k, target);
      }
    }
  }

  lemma {:induction false} FirstStop<V>(s: seq<Subkey<V>>, target: string, m: nat) returns (k: nat)
    requires m < |s| && !(s[m].Subkey? && !Hit(s[m].lookup, target))
    ensures k <= m && !(s[k].Subkey? && !Hit(s[k].lookup, target)) && PassesOver(s[..k], target)
  {
    k := 0;
    while k < m && s[k].Subkey? && !Hit(s[k].lookup, target)
      invariant k <= m
      invariant PassesOver(s[..k], target)
    {
      assert s[..k + 1] == s[..k] + [s[k]];
      k := k + 1;
    }
  }

  /**
   * `findAdapterId`: the name of the first subkey, in enumeration order,
   * whose `Connection\Name` value equals `adapterName`. Subkeys whose
   * `Connection` key cannot be opened or has no readable `Name` are skipped.
   */
  method FindAdapterId(list: ListKey<()>, adapterName: string) returns (r: Result<string>)
    ensures r == Failure(AdapterListUnavailable) <==> list.ListUnavailable?
    ensures r.Success? ==>
      list.ListKey? && (exists k: nat :: FirstHitAt(list.subkeys, k, adapterName) && list.subkeys[k].name == r.value)
    ensures r == Failure(AdapterNameNotFound) <==> list.ListKey? && PassesOver(list.subkeys, adapterName)
    ensures r == Failure(EnumerationFailed) ==>
      list.ListKey? && exists k: nat :: FirstFailureAt(list.subkeys, k, adapterName)
    ensures r.Success? || r.error in {AdapterListUnavailable, AdapterNameNotFound, EnumerationFailed}
    ensures forall k: nat :: list.ListKey? && FirstHitAt(list.subkeys, k, adapterName) ==>
      r == Success(list.subkeys[k].name)
    ensures list.ListKey? && (exists k: nat :: FirstFailureAt(list.subkeys, k, adapterName)) ==>
      r == Failure(EnumerationFailed)
  {
    if list.ListUnavailable? {
      return Failure(AdapterListUnavailable);
    }
    var keys := list.subkeys;
    var i := 0;
    while i < |keys|
      invariant i <= |keys|
      invariant PassesOver(keys[..i], adapterName)
    {
      var entry := keys[i];
      if entry.EnumError? {
        assert FirstFailureAt(keys, i, adapterName);
        ScanEndsOneWay(keys, adapterName);
        return Failure(EnumerationFailed);
      }
      var nameStr := entry.name;
      if entry.lookup.CannotOpen? {
        assert keys[..i + 1] == keys[..i] + [entry];
        i := i + 1;
        continue;
      }
      if entry.lookup.Value? && entry.lookup.text == adapterName {
        assert FirstHitAt(keys, i, adapterName);
        ScanEndsOneWay(keys, adapterName);
        forall k: nat | FirstHitAt(keys, k, adapterName) ensures k == i {
          FirstHitUnique(keys, k, i, adapterName);
        }
        return Success(nameStr);
      }
      assert keys[..i + 1] == keys[..i] + [entry];
      i := i + 1;
    }
    assert keys[..i] == keys;
    ScanEndsOneWay(keys, adapterName);
    return Failure(AdapterNameNotFound);
  }

  /** What a subkey of the adapter class key holds besides its `NetCfgInstanceId`. */
  datatype ClassValues = ClassValues(
    networkAddress: Option<string>,  // the raw data of the `NetworkAddress` value, if any
    acceptsWrite: bool)              // whether `RegSetValueEx` on this key succeeds

  datatype Option<+T> = None | Some(value: T)

  /** The data `RegSetValueEx` stores for a REG_SZ value: the characters and the terminating NUL, `size()+1` bytes. */
  function RegSz(s: string): (data: string)
    ensures |data| == |s| + 1 && data[..|s|] == s && data[|s|] == '\0'
  {
    s + ['\0']
  }

  /** The subkey after `NetworkAddress` has been set to `newMac`. */
  function Written(key: Subkey<ClassValues>, newMac: string): Subkey<ClassValues>
    requires key.Subkey?
  {
    key.(data := key.data.(networkAddress := Some(RegSz(newMac))))
  }

  /**
   * The adapter class key, `Class\{4D36E972-...}`, whose subkeys `setMac`
   * scans and changes in place.
   */
  class ClassList {
    var opens: bool
    var subkeys: seq<Subkey<ClassValues>>

    constructor (opens: bool, subkeys: seq<Subkey<ClassValues>>)
      ensures this.opens == opens && this.subkeys == subkeys
    {
      this.opens := opens;
      this.subkeys := subkeys;
    }

    /**
     * `setMac`: on the first subkey, in enumeration order, whose
     * `NetCfgInstanceId` equals `adapterId`, set `NetworkAddress` to
     * `newMac` with its terminating NUL, and stop. No other subkey changes,
     * and on every failure nothing changes. The empty `newMac` (restore)
     * is written as an empty string value, not deleted.
     */
    method SetMac(adapterId: string, newMac: string) returns (r: Result<()>)
      modifies this`subkeys
      ensures r == Failure(ClassListUnavailable) <==> !opens
      ensures r.Success? ==>
        opens && exists k: nat :: (FirstHitAt(old(subkeys), k, adapterId)
          && old(subkeys)[k].data.acceptsWrite
          && subkeys == old(subkeys)[k := Written(old(subkeys)[k], newMac)])
      ensures r.Failure? ==> subkeys == old(subkeys)
      ensures r == Failure(AdapterIdNotFound) <==> opens && PassesOver(old(subkeys), adapterId)
      ensures r == Failure(EnumerationFailed) ==> opens && exists k: nat :: FirstFailureAt(old(subkeys), k, adapterId)
      ensures r == Failure(WriteRejected) ==>
        opens && exists k: nat :: (FirstHitAt(old(subkeys), k, adapterId) && !old(subkeys)[k].data.acceptsWrite)
      ensures r.Success? || r.error in {ClassListUnavailable, AdapterIdNotFound, EnumerationFailed, WriteRejected}
      ensures forall k: nat :: opens && FirstHitAt(old(subkeys), k, adapterId) ==>
        if old(subkeys)[k].data.acceptsWrite
        then r == Success(()) && subkeys == old(subkeys)[k := Written(old(subkeys)[k], newMac)]
        else r == Failure(WriteRejected)
      ensures opens && (exists k: nat :: FirstFailureAt(old(subkeys), k, adapterId)) ==> r == Failure(EnumerationFailed)
    {
      if !opens {
        return Failure(ClassListUnavailable);
      }
      var i := 0;
      while i < |subkeys|
        invariant i <= |subkeys| && subkeys == old(subkeys)
        invariant PassesOver(subkeys[..i], adapterId)
      {
        var entry := subkeys[i];
        if entry.EnumError? {
          assert FirstFailureAt(subkeys, i, adapterId);
          ScanEndsOneWay(subkeys, adapterId);
          return Failure(EnumerationFailed);
        }
        if entry.lookup.CannotOpen? {
          assert subkeys[..i + 1] == subkeys[..i] + [entry];
          i := i + 1;
          continue;
        }
        if entry.lookup.Value? && entry.lookup.text == adapterId {
          assert FirstHitAt(subkeys, i, adapterId);
          ScanEndsOneWay(subkeys, adapterId);
          forall k: nat | FirstHitAt(subkeys, k, adapterId) ensures k == i {
            FirstHitUnique(subkeys, k, i, adapterId);
          }
          if !entry.data.acceptsWrite {
            return Failure(WriteRejected);
          }
          subkeys := subkeys[i := Written(entry, newMac)];
          return Success(());
        }
        assert subkeys[..i + 1] == subkeys[..i] + [entry];
        i := i + 1;
      }
      assert subkeys[..i] == subkeys;
      ScanEndsOneWay(subkeys, adapterId);
      return Failure(AdapterIdNotFound);
    }
  }
}
