/** Records that more than one part of the mesh database reads. */
module MeshData {
  import opened Wrappers

  datatype Prefix = Prefix(v6: bool, addr: nat, bits: nat)

  /** The zero value `wgtypes.Key{}` is the key 0. */
  type PublicKey = nat

  /** The fields of a node that routing reads. */
  datatype Node = Node(
    id: string, publicKey: PublicKey, ipv4: Option<Prefix>, ipv6: Option<Prefix>,
    zone: string, primaryEndpoint: string, endpoints: seq<string>)

  /** The properties of an edge. */
  datatype Edge = Edge(weight: int, attributes: map<string, string>)

  datatype Route = Route(name: string, node: string, cidrs: seq<string>)

  datatype SubjectType =
    SUBJECT_UNKNOWN | SUBJECT_NODE | SUBJECT_USER | SUBJECT_GROUP | SUBJECT_ALL | UnrecognizedSubject(n: int)

  datatype Subject = Subject(name: string, kind: SubjectType)

  const INVALID_ID_CHARS: set<char> := {'/', '\\', ':', '*', '?', '"', '\'', '<', '>', '|', ','}

  const RESERVED_IDS: set<string> := {"self", "local", "localhost", "leader", "voters", "observers"}

  /** peers.IsValidID. */
  predicate IsValidID(id: string) {
    id != "" && id !in RESERVED_IDS && forall c :: c in INVALID_ID_CHARS ==> c !in id
  }

  /** The IDs that are refused, character by character. */
  lemma ValidIDExact(id: string)
    ensures IsValidID(id) <==>
            && id != "" && id != "self" && id != "local" && id != "localhost"
            && id != "leader" && id != "voters" && id != "observers"
            && forall i :: 0 <= i < |id| ==> id[i] !in "/\\:*?\"'<>|,"
  {
    if IsValidID(id) {
      forall i | 0 <= i < |id| ensures id[i] !in "/\\:*?\"'<>|," {
        assert id[i] in id && id[i] !in INVALID_ID_CHARS;
      }
    }
  }
}
