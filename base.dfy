/** Small shared vocabulary: optional values, results of operations that can
    throw or reject, and JavaScript's `Array.prototype.join` on strings. */
module Base {

  datatype Option<+T> = None | Some(value: T)

  /** A JavaScript value or a thrown error (its message). */
  datatype Result<+T> = Ok(value: T) | Err(error: string)

  /** `parts.join(sep)`: the empty list joins to "", one part joins to itself. */
  function Join(parts: seq<string>, sep: string): string
    decreases |parts|
  {
    if |parts| == 0 then ""
    else if |parts| == 1 then parts[0]
    else parts[0] + sep + Join(parts[1..], sep)
  }

  /** Joining a longer list puts exactly one separator before the new part. */
  lemma {:induction false} JoinSnoc(parts: seq<string>, last: string, sep: string)
    requires |parts| > 0
    ensures Join(parts + [last], sep) == Join(parts, sep) + sep + last
    decreases |parts|
  {
    if |parts| > 1 {
      assert (parts + [last])[1..] == parts[1..] + [last];
      JoinSnoc(parts[1..], last, sep);
    }
  }

  /** Prepending characters to the first part prepends them to the joined text. */
  lemma JoinConsHead(prefix: string, parts: seq<string>, sep: string)
    requires |parts| > 0
    ensures Join([prefix + parts[0]] + parts[1..], sep) == prefix + Join(parts, sep)
  {
    var lhs := [prefix + parts[0]] + parts[1..];
    if |parts| > 1 {
      assert lhs[1..] == parts[1..];
    }
  }
}
