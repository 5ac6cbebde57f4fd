/** Artifacts attached to a run, and the values params, metrics and named
    dicts hold.

    The `Artifact` dataclass declares `bytes` before `artifact_type`, yet every
    constructor call passes `(id, filename, type, bytes)` positionally, and its
    enum lacks the PNG/JPG members the renderer and tests use and the
    `ArtifactBase` the serializer imports. The record below follows the call
    sites: named fields in their order, and one closed enum with every member
    the library refers to (the enum's `IMAGE_PNG` is `Png`). */
module Artifacts {
  import opened Bytes

  datatype ArtifactType = Png | Jpg | PlotlyJson | Html | Binary

  datatype Artifact = Artifact(id: string, filename: string, artifactType: ArtifactType, bytes: seq<byte>)

  /** The metadata-only view of an artifact that is persisted in the run's
      metadata document. */
  datatype ArtifactBase = ArtifactBase(id: string, filename: string, artifactType: ArtifactType)

  /** Drops the payload. */
  function Base(a: Artifact): ArtifactBase
  {
    ArtifactBase(a.id, a.filename, a.artifactType)
  }

  /** Rebuilds a full artifact from its metadata and a payload read back. */
  function WithBytes(b: ArtifactBase, data: seq<byte>): Artifact
  {
    Artifact(b.id, b.filename, b.artifactType, data)
  }

  /** Projecting an artifact and re-attaching its payload is the identity,
      and only the payload is lost by the projection. */
  lemma BaseWithBytes(a: Artifact, b: ArtifactBase, data: seq<byte>)
    ensures WithBytes(Base(a), a.bytes) == a
    ensures Base(WithBytes(b, data)) == b && WithBytes(b, data).bytes == data
  {
  }

  /** `str | int | float`: a parameter, metric or named-dict value. A float is
      carried as its IEEE-754 bit pattern; its text form is left to a
      formatter the caller provides. */
  datatype Value = Str(s: string) | Int(i: int) | Float(bits: bv64)
}
