/** Session specifications, as far as the RTP connection looks into them.

    A specification is a list of media lines. Each line carries a table of media
    kinds and a transport description whose ICE block (optional) lists remote
    candidates. Everything else in a specification is opaque to the connection and
    is folded into `id`, which also stands for the object's identity. */
module Session {
  import opened Options

  /** The kinds a media line can be tagged with; a line may carry several. */
  datatype MediaKind = Audio | Video | OtherKind(code: nat)

  /** One ICE candidate entry of a transport description. The optional fields are
      the ones the serialized record marks as set or unset. */
  datatype TransportCandidate = TransportCandidate(
    foundation: string,
    componentId: int,
    priority: int,
    address: string,
    port: int,
    baseAddress: Option<string>,
    basePort: Option<int>,
    streamId: Option<int>,
    username: string,
    password: string)

  datatype IceInfo = IceInfo(candidates: seq<TransportCandidate>)

  /** `ice` is `None` when the transport carries no ICE block (plain RTP). */
  datatype Transport = Transport(ice: Option<IceInfo>)

  datatype MediaSpec = MediaSpec(kinds: set<MediaKind>, transport: Transport)

  datatype SessionSpec = SessionSpec(id: nat, medias: seq<MediaSpec>)

  /** The negotiation capability, left uninterpreted: it takes two (nullable)
      specifications and yields two negotiated ones, the first output belonging
      to the first input. */
  type Intersection = (Option<SessionSpec>, Option<SessionSpec>) -> (Option<SessionSpec>, Option<SessionSpec>)
}
