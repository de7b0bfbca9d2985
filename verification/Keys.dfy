/** Internal keys: a user key, a sequence number and a kind, ordered by increasing user key and
    then by decreasing sequence number and kind. */
module Keys {

  /** A comparator is a total order on byte strings.  There are countably many byte strings, so
      every such order embeds in the reals; a user key is represented by its image. */
  type UserKey = real

  type Bytes = seq<char>

  datatype Kind = Deletion | Value

  /** The low eight bits of a 64-bit tag are kept for the kind. */
  const MAX_SEQUENCE: nat := 0xff_ffff_ffff_ffff

  type SequenceNumber = n: nat | n <= MAX_SEQUENCE

  datatype Entry = Entry(key: UserKey, seqno: SequenceNumber, kind: Kind, value: Bytes) {
    /** The tag packs sequence number and kind. */
    function Tag(): nat {
      seqno * 256 + if kind == Value then 1 else 0
    }
  }

  /** The tag part of the internal key that is sought for snapshot `s`: kValueTypeForSeek. */
  function SeekTag(s: nat): nat {
    s * 256 + 1
  }

  /** Internal key order between an entry and the key (k, tag). */
  predicate KeyBefore(e: Entry, k: UserKey, tag: nat) {
    e.key < k || (e.key == k && e.Tag() > tag)
  }

  predicate Before(a: Entry, b: Entry) {
    KeyBefore(a, b.key, b.Tag())
  }

  /** Strictly ascending in internal key order: how a table or a merged input lists its entries. */
  ghost predicate Ascending(es: seq<Entry>) {
    forall i, j :: 0 <= i < j < |es| ==> Before(es[i], es[j])
  }

  /** No two different entries share a user key and a sequence number. */
  ghost predicate DistinctSeqnos(s: set<Entry>) {
    forall a, b :: a in s && b in s && a.key == b.key && a.seqno == b.seqno ==> a == b
  }
}
