/**
 * Values shared by the importer and the exporter: a parameter is a Python
 * dictionary from field (or CSV column) name to a Python value.
 */
module Records {

  datatype Option<+T> = None | Some(value: T)

  /** A Python value held in one field of a parameter record. */
  datatype Cell =
    | Missing                            // None: what csv.DictReader gives for a short row
    | Str(text: string)
    | Bool(flag: bool)
    | Opaque(text: string, truthy: bool) // any other value (a datetime, an int, a list): its str() and its truth value

  type Record = map<string, Cell>

  /** Python's `not value`. */
  predicate Falsy(c: Cell) {
    match c
    case Missing => true
    case Str(s) => s == ""
    case Bool(b) => !b
    case Opaque(_, t) => !t
  }

  /** Python's `str(value)`, which is what an f-string interpolates. */
  function Render(c: Cell): string {
    match c
    case Missing => "None"
    case Str(s) => s
    case Bool(b) => if b then "True" else "False"
    case Opaque(s, _) => s
  }

  /** `if k in d: del d[k]`. */
  function Without(r: Record, k: string): Record {
    r - {k}
  }

  /** `if k in d: if not d[k]: del d[k]`: drops a field that is present but empty. */
  function WithoutIfFalsy(r: Record, k: string): Record {
    if k in r && Falsy(r[k]) then Without(r, k) else r
  }

  /** `if k in parameter: del parameter[k]` on a record dictionary. */
  method DropField(row: Record, k: string) returns (parameter: Record)
    ensures parameter == Without(row, k)
  {
    parameter := row;
    if k in parameter {
      parameter := parameter - {k};
    }
  }

  /** `if k in parameter: if not parameter[k]: del parameter[k]` on a record dictionary. */
  method DropFieldIfEmpty(row: Record, k: string) returns (parameter: Record)
    ensures parameter == WithoutIfFalsy(row, k)
  {
    parameter := row;
    if k in parameter {
      if Falsy(parameter[k]) {
        parameter := parameter - {k};
      }
    }
  }

  /** The fields both tools remove unconditionally: server-managed metadata. */
  const METADATA: set<string> := {"LastModifiedDate", "LastModifiedUser", "Version"}

  /** Two records agree on field k: both lack it, or both hold the same value. */
  predicate SameField(a: Record, b: Record, k: string) {
    (k in a <==> k in b) && (k in a ==> a[k] == b[k])
  }

  lemma AppendAssoc<T>(a: seq<T>, b: seq<T>, c: seq<T>)
    ensures (a + b) + c == a + (b + c)
  {
  }

  /** The half-open index range [lo, hi) as a sequence. */
  function Range(lo: nat, hi: nat): (s: seq<nat>)
    ensures |s| == if lo <= hi then hi - lo else 0
    ensures forall k :: 0 <= k < |s| ==> s[k] == lo + k
    decreases hi - lo
  {
    if lo >= hi then [] else [lo] + Range(lo + 1, hi)
  }
}
