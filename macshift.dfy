/**
 * `main` of macshift.cpp up to the call of `resetAdapter`: generate a random
 * address, parse the arguments, show the chosen address, find the
 * adapter's configuration identifier, and write the address under its
 * class key.
 */
module Macshift {
  import opened MacAddress
  import opened CommandLine
  import opened Registry

  /** How a run of `main` ends, or that it goes on to reset the adapter. */
  datatype RunOutcome =
    | UsageError(error: ParseError)                       // "Error: ..." from parsing, EXIT_FAILURE
    | HelpShown                                           // `showHelp`, EXIT_FAILURE
    | RuntimeError(shown: string, failure: ScanError)     // "Error: ..." from a scan, EXIT_FAILURE
    | ResetNext(shown: string, adapter: string, adapterId: string)  // the write is done; `resetAdapter(adapter)` follows

  /**
   * `main` with the random draws, the adapter list key and the adapter
   * class key as parameters. Nothing is looked up or written unless the
   * arguments parse, and nothing is written unless the adapter is found.
   */
  method RunMacshift(args: seq<string>, table: seq<nat>, pick: nat, draws: seq<nat>,
                     network: ListKey<()>, classes: ClassList)
    returns (out: RunOutcome)
    requires |table| > 0 && |draws| == 3
    modifies classes`subkeys
    ensures var p := Parse(args, GeneratedMac(table, pick, draws));
      (p.Failed? ==> out == UsageError(p.error)) &&
      (p.ShowHelp? ==> out == HelpShown) &&
      (p.Parsed? ==> out.RuntimeError? || out.ResetNext?)
    ensures !out.ResetNext? ==> classes.subkeys == old(classes.subkeys)
    ensures out.RuntimeError? || out.ResetNext? ==>
      var p := Parse(args, GeneratedMac(table, pick, draws));
      p.Parsed? && Displays(p.newMac, out.shown)
    ensures out.ResetNext? ==>
      var p := Parse(args, GeneratedMac(table, pick, draws));
      p.Parsed? && out.adapter == p.adapter && network.ListKey? && classes.opens &&
      (exists k: nat :: FirstHitAt(network.subkeys, k, p.adapter) && network.subkeys[k].name == out.adapterId) &&
      (exists k: nat :: FirstHitAt(old(classes.subkeys), k, out.adapterId)
        && classes.subkeys == old(classes.subkeys)[k := Written(old(classes.subkeys)[k], p.newMac)])
    ensures out.RuntimeError? && out.failure == AdapterNameNotFound ==>
      network.ListKey? && PassesOver(network.subkeys, Parse(args, GeneratedMac(table, pick, draws)).adapter)
    // The first scan's outcome decides the run's failure, or leads to the second scan.
    ensures var p := Parse(args, GeneratedMac(table, pick, draws));
      p.Parsed? ==>
        && (network.ListUnavailable? ==> out.RuntimeError? && out.failure == AdapterListUnavailable)
        && (network.ListKey? && PassesOver(network.subkeys, p.adapter) ==>
              out.RuntimeError? && out.failure == AdapterNameNotFound)
        && (network.ListKey? && (exists k: nat :: FirstFailureAt(network.subkeys, k, p.adapter)) ==>
              out.RuntimeError? && out.failure == EnumerationFailed)
    // Once the adapter is found, the second scan's outcome decides the run.
    ensures forall n: nat ::
      var p := Parse(args, GeneratedMac(table, pick, draws));
      p.Parsed? && network.ListKey? && FirstHitAt(network.subkeys, n, p.adapter) ==>
        var id := network.subkeys[n].name;
        && (!classes.opens ==> out.RuntimeError? && out.failure == ClassListUnavailable)
        && (classes.opens && PassesOver(old(classes.subkeys), id) ==>
              out.RuntimeError? && out.failure == AdapterIdNotFound)
        && (classes.opens && (exists k: nat :: FirstFailureAt(old(classes.subkeys), k, id)) ==>
              out.RuntimeError? && out.failure == EnumerationFailed)
        && (forall k: nat :: classes.opens && FirstHitAt(old(classes.subkeys), k, id) ==>
              if old(classes.subkeys)[k].data.acceptsWrite
              then out == ResetNext(out.shown, p.adapter, id)
                && classes.subkeys == old(classes.subkeys)[k := Written(old(classes.subkeys)[k], p.newMac)]
              else out.RuntimeError? && out.failure == WriteRejected)
  {
    var newMac := RandomMac(table, pick, draws);
    var parsed := ParseArgs(args, newMac);
    if !parsed.Parsed? {
      if parsed.Failed? {
        return UsageError(parsed.error);
      }
      return HelpShown;
    }
    ParsedMacForms(args, newMac);
    var shown := ShowNewMac(parsed.newMac);
    var adapterId := FindAdapterId(network, parsed.adapter);
    if adapterId.Failure? {
      return RuntimeError(shown, adapterId.error);
    }
    var written := classes.SetMac(adapterId.value, parsed.newMac);
    if written.Failure? {
      return RuntimeError(shown, written.error);
    }
    return ResetNext(shown, parsed.adapter, adapterId.value);
  }
}
