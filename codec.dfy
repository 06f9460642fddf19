/**
 * Records and their stored form.  A record is one CSV row as
 * `DataFrame.to_dict(orient='records')` gives it: field name to scalar.
 * The JSON text `json.dumps` writes and `json.loads` reads back is kept
 * abstract: a stored value is either the encoding of a record or some
 * other bytes, which fail to decode.
 */
module Codec {

  import opened Wrappers

  /** A cell value; floating-point cells are not part of this model. */
  datatype Scalar = Text(s: string) | Int(n: int) | Null

  type Record = map<string, Scalar>

  /** What the store holds under a key. */
  datatype Value =
    | Encoded(record: Record)   // the JSON text of a record
    | Foreign(bytes: seq<bv8>)  // anything else: not UTF-8, not JSON, or not a JSON object

  function Encode(rec: Record): Value
  {
    Encoded(rec)
  }

  function Decode(v: Value): Option<Record>
  {
    match v
    case Encoded(rec) => Some(rec)
    case Foreign(_) => None
  }

  /** The one law assumed of the encoding: decoding undoes encoding. */
  lemma DecodeEncode(rec: Record)
    ensures Decode(Encode(rec)) == Some(rec)
  {
  }

}
