/** The progress state's types (components/StateContext.tsx): the four-valued
    completion, one item's progress, the whole state and the export envelope. */
module StateTypes {
  import opened Wrappers

  /** The `Completion` enum, in declaration order. */
  datatype Completion = MissingEverything | MissingSomething | ReadyToCraft | Done

  /** The enum's numeric value, as written into saved and exported JSON. */
  function Ordinal(c: Completion): (r: nat)
    ensures r < 4
  {
    match c
    case MissingEverything => 0
    case MissingSomething => 1
    case ReadyToCraft => 2
    case Done => 3
  }

  /** Reads a saved numeric value back; numbers outside the enum have no
      completion. */
  function FromOrdinal(n: int): (r: Option<Completion>)
    ensures r.Some? <==> 0 <= n < 4
  {
    if n == 0 then Some(MissingEverything)
    else if n == 1 then Some(MissingSomething)
    else if n == 2 then Some(ReadyToCraft)
    else if n == 3 then Some(Done)
    else None
  }

  /** The numeric encoding round-trips in both directions, so it is a
      bijection between the enum and 0..3. */
  lemma OrdinalRoundTrip(c: Completion, n: int)
    ensures FromOrdinal(Ordinal(c)) == Some(c)
    ensures FromOrdinal(n) == Some(c) ==> Ordinal(c) == n
  {
  }

  /** One item's progress: the count acquired per component name, and the
      completion. Saved or imported data may lack the component map, hence
      the `Option`. */
  datatype Progress = Progress(components: Option<map<string, int>>, completion: Completion)

  /** The whole progress state, keyed by item `uniqueName`. */
  type State = map<string, Progress>

  /** `SaveVersion.VERSION_0`, the only save format. */
  const Version0: int := 0

  /** The export/import envelope. The version is an arbitrary number here
      because an imported file may carry any value. */
  datatype Export = Export(state: State, version: int)
}
