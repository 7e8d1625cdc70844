/** Values shared by the backend components: optional values, and the
    dictionaries (segments) that the transcriber and the translator pass
    around. */
module Records {

  datatype Option<T> = None | Some(value: T)

  /** A value stored in a segment dictionary: a string, a number (times and
      probabilities) or anything else. */
  datatype Value = Str(s: string) | Num(x: real) | Other

  /** A timestamped segment: a dictionary from keys (`start`, `end`, `text`,
      ...) to values. */
  type Segment = map<string, Value>

  /** A segment whose `text`, when present, is a string. */
  predicate HasTextString(seg: Segment) {
    "text" in seg ==> seg["text"].Str?
  }

  /** A copy of a segment whose `text` is replaced by `newText`, with the
      old text kept under `savedAs`; every other key is kept. */
  function WithNewText(seg: Segment, savedAs: string, newText: string): (r: Segment)
    requires "text" in seg && savedAs != "text"
    ensures r.Keys == seg.Keys + {savedAs}
    ensures r[savedAs] == seg["text"] && r["text"] == Str(newText)
    ensures forall key | key in seg && key != "text" && key != savedAs :: r[key] == seg[key]
  {
    seg[savedAs := seg["text"]]["text" := Str(newText)]
  }
}
