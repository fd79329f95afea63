/** The parts of an event record the analysis modules read, and the status a
    module's `process` hands back to the pipeline. */
module Event {
  import opened Wrappers
  import opened Histogram

  /** A scalar (or vector) property of the event header. A real carries its
      value and its rendering as `ostream` would print it. */
  datatype Property =
    | Flag(b: bool)
    | Integer(i: int)
    | Real(r: real, rendered: string)
    | Text(s: string)
    | Vector

  type Header = map<string, Property>

  /** `properties::fetch_string`: fails unless the key holds a string. */
  function FetchString(h: Header, key: string): Result<string> {
    if key in h && h[key].Text? then Ok(h[key].s) else Fail("no string property '" + key + "'")
  }

  /** `properties::fetch_real`: fails unless the key holds a real. */
  function FetchReal(h: Header, key: string): Result<real> {
    if key in h && h[key].Real? then Ok(h[key].r) else Fail("no real property '" + key + "'")
  }

  /** `geomtools::geom_id`: a geometry category and an address. */
  datatype GeomId = GeomId(category: nat, address: seq<nat>)

  /** A calorimeter hit; its energy is taken to be finite. */
  datatype CaloHit = CaloHit(gid: GeomId, energy: real)

  datatype Charge = Negative | Positive | Neutral | Undefined | Invalid

  /** A particle track: its charge and its associated calorimeter hits.
      The trajectory is not modelled; every particle is taken to have one. */
  datatype Particle = Particle(charge: Charge, calos: seq<CaloHit>)

  /** The particle-track bank. */
  datatype TrackData = TrackData(particles: seq<Particle>, nonAssociated: seq<CaloHit>)

  /** The `vertex_e1_e2` measurement of a two-electron pattern. */
  datatype VertexMeasurement = VertexMeasurement(
    probability: Value,
    distanceX: Value,
    distanceY: Value,
    distanceZ: Value)

  /** A topology pattern: its id and the observables its variants expose
      (the electron energy of a `1e` pattern, the vertex measurement of a
      `2e` pattern). */
  datatype Pattern = Pattern(id: string, electronEnergy: Value, vertex: VertexMeasurement)

  /** The topology bank; it may hold no pattern. */
  datatype Topology = Topology(pattern: Option<Pattern>)

  /** The banks of one event record; a missing bank is `None`. */
  datatype Record = Record(
    header: Option<Header>,
    tracks: Option<TrackData>,
    topology: Option<Topology>)

  /** Particle multiplicities by charge. */
  datatype Multiplicity = Multiplicity(electrons: nat, positrons: nat, undefined: nat)

  /** `dpp::base_module::process_status`, plus `Raised` for an exception
      leaving `process`. */
  datatype Status = Success | Continue | Stop | Error | Raised(reason: string)

  /** What processing one event leaves behind: its status and the pool. */
  datatype Outcome = Outcome(status: Status, pool: Pool)
}
