/** The booking page's local `encode`: an ordered record of keys and values
    written as `key=value` segments joined by `&`, each key and value passed
    through `encodeURIComponent`, with a falsy value written as the empty
    string.  A matching decoder (split on `&`, cut each segment at its
    first `=`, turn `+` into a space, percent-decode) recovers the record. */
module FormEncoding {
  import opened Wrappers
  import opened UriComponent

  /** One own property of the object handed to `encode`, in key order.
      `None` stands for `undefined` or `null`. */
  datatype Entry = Entry(key: string, value: Option<string>)

  /** `data[key] || ''`: a missing value and the empty string are both
      written as the empty string. */
  function ValueOrEmpty(v: Option<string>): (r: string)
    ensures v.Some? ==> r == v.value
    ensures v.None? ==> r == ""
  {
    match v
    case Some(s) => s
    case None => ""
  }

  function Segment(e: Entry): (r: string)
    ensures '&' !in r
  {
    EncodeUriComponent(e.key) + "=" + EncodeUriComponent(ValueOrEmpty(e.value))
  }

  function Segments(es: seq<Entry>): (r: seq<string>)
    ensures |r| == |es|
    ensures forall i :: 0 <= i < |es| ==> r[i] == Segment(es[i])
  {
    if es == [] then [] else [Segment(es[0])] + Segments(es[1..])
  }

  /** The parts joined with `sep` between consecutive ones. */
  function Join(parts: seq<string>, sep: char): string
    requires parts != []
  {
    if |parts| == 1 then parts[0] else parts[0] + [sep] + Join(parts[1..], sep)
  }

  /** `String.prototype.split(sep)` for a one-character separator: the
      pieces between separators, always at least one. */
  function SplitOn(s: string, sep: char): (parts: seq<string>)
    ensures parts != []
    ensures forall i :: 0 <= i < |parts| ==> sep !in parts[i]
  {
    if s == [] then [[]]
    else if s[0] == sep then [[]] + SplitOn(s[1..], sep)
    else
      var rest := SplitOn(s[1..], sep);
      [[s[0]] + rest[0]] + rest[1..]
  }

  /** `encode(data)`. */
  function EncodeForm(es: seq<Entry>): (r: string)
    ensures es == [] <==> r == ""
  {
    if es == [] then "" else Join(Segments(es), '&')
  }

  // ---------------------------------------------------------------------
  // Splitting undoes joining
  // ---------------------------------------------------------------------

  lemma {:induction false} SplitWithoutSeparator(s: string, sep: char)
    requires sep !in s
    ensures SplitOn(s, sep) == [s]
  {
    if s != [] {
      SplitWithoutSeparator(s[1..], sep);
      assert s == [s[0]] + s[1..];
    }
  }

  lemma {:induction false} SplitAtSeparator(a: string, b: string, sep: char)
    requires sep !in a
    ensures SplitOn(a + [sep] + b, sep) == [a] + SplitOn(b, sep)
  {
    var s := a + [sep] + b;
    if a == [] {
      assert s[1..] == b;
    } else {
      assert s[0] == a[0];
      assert s[1..] == a[1..] + [sep] + b;
      SplitAtSeparator(a[1..], b, sep);
      assert [a[0]] + a[1..] == a;
    }
  }

  /** Splitting a join of separator-free parts gives the parts back. */
  lemma {:induction false} SplitJoin(parts: seq<string>, sep: char)
    requires parts != []
    requires forall i :: 0 <= i < |parts| ==> sep !in parts[i]
    ensures SplitOn(Join(parts, sep), sep) == parts
  {
    if |parts| == 1 {
      SplitWithoutSeparator(parts[0], sep);
    } else {
      SplitJoin(parts[1..], sep);
      SplitAtSeparator(parts[0], Join(parts[1..], sep), sep);
      assert parts == [parts[0]] + parts[1..];
    }
  }

  /** `encode` writes one segment per entry, in entry order, joined by `&`:
      splitting its output on `&` gives exactly those segments. */
  lemma SegmentPerEntry(es: seq<Entry>)
    requires es != []
    ensures SplitOn(EncodeForm(es), '&') == Segments(es)
    ensures forall i :: 0 <= i < |es| ==>
      SplitOn(EncodeForm(es), '&')[i]
        == EncodeUriComponent(es[i].key) + "=" + EncodeUriComponent(ValueOrEmpty(es[i].value))
  {
    SplitJoin(Segments(es), '&');
  }

  /** The first entry's segment, then `&`, then the rest. */
  lemma EncodeFormCons(e: Entry, rest: seq<Entry>)
    requires rest != []
    ensures EncodeForm([e] + rest) == Segment(e) + "&" + EncodeForm(rest)
  {
    assert ([e] + rest)[1..] == rest;
  }

  /** `encode` sees a record only through its keys and its values with
      falsy ones replaced by the empty string. */
  lemma EncodeSeesOnlyPairs(a: seq<Entry>, b: seq<Entry>)
    requires Pairs(a) == Pairs(b)
    ensures EncodeForm(a) == EncodeForm(b)
  {
    assert |a| == |Pairs(a)| == |b|;
    forall i | 0 <= i < |a|
      ensures Segment(a[i]) == Segment(b[i])
    {
      assert Pairs(a)[i] == Pairs(b)[i];
    }
    assert Segments(a) == Segments(b);
  }

  /** So a missing value and an empty one are written alike. */
  lemma FalsyValuesEncodeAlike(front: seq<Entry>, key: string, back: seq<Entry>)
    ensures EncodeForm(front + [Entry(key, None)] + back)
         == EncodeForm(front + [Entry(key, Some(""))] + back)
  {
    var a, b := front + [Entry(key, None)] + back, front + [Entry(key, Some(""))] + back;
    assert Pairs(a) == Pairs(b);
    EncodeSeesOnlyPairs(a, b);
  }

  // ---------------------------------------------------------------------
  // The matching decoder
  // ---------------------------------------------------------------------

  /** A segment cut at its first `=` into name and value; a segment with no
      `=` is a name with an empty value. */
  function CutAtEquals(seg: string): (r: (string, string))
    ensures '=' !in r.0
  {
    if seg == [] then ([], [])
    else if seg[0] == '=' then ([], seg[1..])
    else
      var rest := CutAtEquals(seg[1..]);
      ([seg[0]] + rest.0, rest.1)
  }

  lemma {:induction false} CutAtFirstEquals(a: string, b: string)
    requires '=' !in a
    ensures CutAtEquals(a + "=" + b) == (a, b)
  {
    var s := a + "=" + b;
    if a == [] {
      assert s[1..] == b;
    } else {
      assert s[0] == a[0];
      assert s[1..] == a[1..] + "=" + b;
      CutAtFirstEquals(a[1..], b);
      assert [a[0]] + a[1..] == a;
    }
  }

  /** Form decoding reads `+` as a space. */
  function PlusAsSpace(s: string): (r: string)
    ensures |r| == |s|
    ensures '+' !in r
  {
    if s == [] then [] else [if s[0] == '+' then ' ' else s[0]] + PlusAsSpace(s[1..])
  }

  lemma {:induction false} PlusAsSpaceWithoutPlus(s: string)
    requires '+' !in s
    ensures PlusAsSpace(s) == s
  {
    if s != [] {
      PlusAsSpaceWithoutPlus(s[1..]);
      assert s == [s[0]] + s[1..];
    }
  }

  function DecodeComponent(s: string): Option<string> {
    DecodeUriComponent(PlusAsSpace(s))
  }

  function DecodeSegments(parts: seq<string>): Option<seq<(string, string)>> {
    if parts == [] then Some([])
    else
      var (k, v) := CutAtEquals(parts[0]);
      match (DecodeComponent(k), DecodeComponent(v), DecodeSegments(parts[1..]))
      case (Some(key), Some(value), Some(rest)) => Some([(key, value)] + rest)
      case _ => None
  }

  /** The receiving side: the empty body is the empty record; otherwise
      every `&`-separated segment is one pair. */
  function DecodeForm(s: string): Option<seq<(string, string)>> {
    if s == [] then Some([]) else DecodeSegments(SplitOn(s, '&'))
  }

  /** The pairs a record is meant to carry: its keys with falsy values
      replaced by the empty string. */
  function Pairs(es: seq<Entry>): (r: seq<(string, string)>)
    ensures |r| == |es|
    ensures forall i :: 0 <= i < |es| ==> r[i] == (es[i].key, ValueOrEmpty(es[i].value))
  {
    if es == [] then [] else [(es[0].key, ValueOrEmpty(es[0].value))] + Pairs(es[1..])
  }

  /** An encoded component decodes back to the original. */
  lemma DecodeEncodedComponent(s: string)
    ensures DecodeComponent(EncodeUriComponent(s)) == Some(s)
  {
    PlusAsSpaceWithoutPlus(EncodeUriComponent(s));
    DecodeEncode(s);
  }

  lemma {:induction false} DecodeSegmentsOfEntries(es: seq<Entry>)
    ensures DecodeSegments(Segments(es)) == Some(Pairs(es))
  {
    if es != [] {
      DecodeSegmentsOfEntries(es[1..]);
      var e := es[0];
      var k, v := EncodeUriComponent(e.key), EncodeUriComponent(ValueOrEmpty(e.value));
      CutAtFirstEquals(k, v);
      DecodeEncodedComponent(e.key);
      DecodeEncodedComponent(ValueOrEmpty(e.value));
      assert Segments(es)[1..] == Segments(es[1..]);
    }
  }

  /** Round trip: decoding what `encode` wrote recovers every key and value,
      in order, with falsy values as empty strings. */
  lemma DecodeEncodeForm(es: seq<Entry>)
    ensures DecodeForm(EncodeForm(es)) == Some(Pairs(es))
  {
    if es != [] {
      SegmentPerEntry(es);
      DecodeSegmentsOfEntries(es);
    }
  }
}
