/** Replies as the host's `StringBuilder` assembles them: a list of appended
    pieces, most of them `Key=Value;`, whose concatenation is the text. */
module Wire {

  import opened Text

  /** The piece `$"{key}={value};"`. */
  function Field(key: string, value: string): string
  {
    key + "=" + value + ";"
  }

  /** `StringBuilder.ToString()`: the appended pieces, in order. */
  function Concat(pieces: seq<string>): string
  {
    if pieces == [] then "" else pieces[0] + Concat(pieces[1..])
  }

  /** The `Field` pieces of a list of key/value pairs. */
  function Fields(pairs: seq<(string, string)>): (r: seq<string>)
    ensures |r| == |pairs|
    ensures forall i :: 0 <= i < |pairs| ==> r[i] == Field(pairs[i].0, pairs[i].1)
  {
    if pairs == [] then [] else [Field(pairs[0].0, pairs[0].1)] + Fields(pairs[1..])
  }

  /** A pair as it reads between two ';' separators. */
  function Entry(pair: (string, string)): string
  {
    pair.0 + "=" + pair.1
  }

  function Entries(pairs: seq<(string, string)>): (r: seq<string>)
    ensures |r| == |pairs|
    ensures forall i :: 0 <= i < |pairs| ==> r[i] == Entry(pairs[i])
  {
    if pairs == [] then [] else [Entry(pairs[0])] + Entries(pairs[1..])
  }

  predicate NoSemicolons(pairs: seq<(string, string)>)
  {
    forall i :: 0 <= i < |pairs| ==> ';' !in pairs[i].0 && ';' !in pairs[i].1
  }

  /** The first field, its separator, then the rest of the text. */
  lemma ConcatFieldsCons(pairs: seq<(string, string)>, tail: string)
    requires |pairs| >= 1
    ensures Concat(Fields(pairs) + [tail]) == Entry(pairs[0]) + [';'] + Concat(Fields(pairs[1..]) + [tail])
  {
    var pieces := Fields(pairs) + [tail];
    assert pieces[0] == Entry(pairs[0]) + [';'];
    assert pieces[1..] == Fields(pairs[1..]) + [tail];
  }

  lemma NoSemicolonsRest(pairs: seq<(string, string)>)
    requires |pairs| >= 1 && NoSemicolons(pairs)
    ensures NoSemicolons(pairs[1..]) && ';' !in Entry(pairs[0])
  {
    var rest := pairs[1..];
    forall i | 0 <= i < |rest| ensures ';' !in rest[i].0 && ';' !in rest[i].1 {
      assert rest[i] == pairs[i + 1];
    }
  }

  lemma EntriesCons(pairs: seq<(string, string)>, t: seq<string>)
    requires |pairs| >= 1
    ensures [Entry(pairs[0])] + (Entries(pairs[1..]) + t) == Entries(pairs) + t
  {
  }

  /** Splitting a reply on ';' gives back one entry per field, followed by the
      pieces of whatever was appended after the fields. */
  lemma {:induction false} SplitFields(pairs: seq<(string, string)>, tail: string)
    requires NoSemicolons(pairs)
    ensures Split(Concat(Fields(pairs) + [tail]), ';') == Entries(pairs) + Split(tail, ';')
    decreases |pairs|
  {
    if pairs == [] {
      assert Fields(pairs) + [tail] == [tail];
      assert Concat([tail]) == tail + Concat([]) == tail;
      assert Entries(pairs) + Split(tail, ';') == Split(tail, ';');
    } else {
      var e := Entry(pairs[0]);
      var more := Concat(Fields(pairs[1..]) + [tail]);
      NoSemicolonsRest(pairs);
      calc {
        Split(Concat(Fields(pairs) + [tail]), ';');
        { ConcatFieldsCons(pairs, tail); }
        Split(e + [';'] + more, ';');
        { SplitAtFirst(e, ';', more); }
        [e] + Split(more, ';');
        { SplitFields(pairs[1..], tail); }
        [e] + (Entries(pairs[1..]) + Split(tail, ';'));
        { EntriesCons(pairs, Split(tail, ';')); }
        Entries(pairs) + Split(tail, ';');
      }
    }
  }
}
