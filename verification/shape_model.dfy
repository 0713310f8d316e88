/** The parts of a service-model document that the generators read: the
    "shapes" table, the "operations" table and the "metadata" block. */
module ShapeModel {
  import opened Wrappers
  import opened Dicts

  /** A structure member, `{"shape": <name>, "documentation": <text>}`. */
  datatype Member = Member(shape: string, documentation: Option<string>)

  /** One entry of the "shapes" table.  `kind` is the "type" key
      ("structure", "list", "map", "string", ...).  `members` is present on
      structures; `member` is the element shape name of a list (its
      `{"shape": ...}` unwrapped); `key` and `value` are the same for a map. */
  datatype Shape = Shape(
    kind: string,
    members: Option<Dict<Member>>,
    member: Option<string>,
    key: Option<string>,
    value: Option<string>,
    documentation: Option<string>)

  /** One entry of the "operations" table; `input` and `output` are the
      shape names inside `{"shape": ...}`, when the operation has them. */
  datatype Operation = Operation(input: Option<string>, output: Option<string>)

  /** The "metadata" block read by the resource generator. */
  datatype Metadata = Metadata(
    apiVersion: string,
    protocol: string,
    serviceFullName: string,
    serviceId: string,
    uid: string)

  /** What the generators raise: a dictionary lookup that fails (Python's
      `KeyError`, carrying the missing key) and the two rejections of an
      unsupported service. */
  datatype CodegenError =
    | KeyError(key: string)
    | UnsupportedServiceId(serviceId: string)
    | UnsupportedProtocol(protocol: string)
}
