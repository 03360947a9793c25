/** The two records the core works on, as the script reads them from the
    downloaded JSON. Only the keys the core looks at are kept. */
module Records {
  import opened Wrappers
  import opened Seqs

  /** A hold of the wall configuration. `polygon` stands for the outline and
      the other gym-supplied metadata, which the core carries along without
      looking at them; `role` is the "type" key that normalisation sets on
      a route's copy of the hold (None while the key is absent). */
  datatype Hold = Hold(id: int, polygon: string, role: Option<char>)

  /** A route: its id, its crowd grade (`crowdGrade.hueco`), its compact
      hold list such as "S1 O2", and the two keys the script attaches to
      it, "normalizedHolds" and "route_similarity" (`ranking`, None while
      the key is absent). */
  datatype Route = Route(
    id: string,
    grade: string,
    holdsList: string,
    normalizedHolds: seq<Hold>,
    ranking: Option<seq<string>>)

  /** `[hold["id"] for hold in hs]`. */
  function HoldIds(hs: seq<Hold>): seq<int> {
    Map(hs, (h: Hold) => h.id)
  }
}
