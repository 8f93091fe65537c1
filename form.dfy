/** The application/x-www-form-urlencoded body that `new URLSearchParams({...})`
    serializes to: name=value pairs, in insertion order, joined by '&'. */
module FormUrlEncoded {
  import opened Common
  import opened Text
  import opened PercentEncoding

  /** One form field, name and value. */
  type Field = (string, string)

  /** Neither separator can appear inside an encoded name or value. */
  lemma NoSeparators(s: string)
    ensures '&' !in FormEncode(s) && '=' !in FormEncode(s)
  {
    var e := FormEncode(s);
    forall i | 0 <= i < |e|
      ensures e[i] != '&' && e[i] != '='
    {
      assert IsFormSafe(e[i]) || e[i] == '%' || e[i] == '+';
    }
  }

  function SerializeField(f: Field): (r: string)
    ensures '&' !in r
  {
    NoSeparators(f.0);
    NoSeparators(f.1);
    FormEncode(f.0) + "=" + FormEncode(f.1)
  }

  /** `URLSearchParams.toString()`. */
  function Serialize(fields: seq<Field>): (r: string)
    ensures fields != [] ==> r != []
  {
    if fields == [] then []
    else if |fields| == 1 then SerializeField(fields[0])
    else SerializeField(fields[0]) + "&" + Serialize(fields[1..])
  }

  /** Reads one "name=value" segment; a segment without '=' is a name with an
      empty value. */
  function ParseField(seg: string): Option<Field> {
    var (name, value) := SplitFirst(seg, '=');
    match (FormDecode(name), FormDecode(value.GetOr([])))
    case (Some(n), Some(v)) => Some((n, v))
    case _ => None
  }

  /** Reads a form body back into its fields; None when a name or value is not
      a valid encoding. */
  function Parse(s: string): Option<seq<Field>>
    decreases |s|
  {
    if s == [] then Some([])
    else
      var (seg, rest) := SplitFirst(s, '&');
      match ParseField(seg)
      case None => None
      case Some(f) =>
        match rest
        case None => Some([f])
        case Some(r) =>
          match Parse(r)
          case None => None
          case Some(fs) => Some([f] + fs)
  }

  lemma ParseSerializeField(f: Field)
    ensures ParseField(SerializeField(f)) == Some(f)
  {
    NoSeparators(f.0);
    SplitFirstAt(FormEncode(f.0), '=', FormEncode(f.1));
    assert FormEncode(f.0) + "=" + FormEncode(f.1) == FormEncode(f.0) + ['='] + FormEncode(f.1);
    FormRoundTrip(f.0);
    FormRoundTrip(f.1);
  }

  /** A last segment is read as one field. */
  lemma ParseLast(seg: string)
    requires seg != [] && '&' !in seg
    ensures Parse(seg) == match ParseField(seg) case None => None case Some(f) => Some([f])
  {
    SplitFirstAbsent(seg, '&');
  }

  /** A segment followed by '&' is read as one field, then the rest. */
  lemma ParseNext(seg: string, rest: string)
    requires '&' !in seg
    ensures Parse(seg + "&" + rest) ==
      match (ParseField(seg), Parse(rest))
      case (Some(f), Some(fs)) => Some([f] + fs)
      case _ => None
  {
    assert seg + "&" + rest == seg + ['&'] + rest;
    SplitFirstAt(seg, '&', rest);
  }

  /** Parsing a serialized body gives back exactly the fields, in order. */
  lemma {:induction false} ParseSerialize(fields: seq<Field>)
    ensures Parse(Serialize(fields)) == Some(fields)
  {
    if fields != [] {
      ParseSerializeField(fields[0]);
      if |fields| == 1 {
        ParseLast(SerializeField(fields[0]));
        assert [fields[0]] == fields;
      } else {
        ParseNext(SerializeField(fields[0]), Serialize(fields[1..]));
        ParseSerialize(fields[1..]);
        assert [fields[0]] + fields[1..] == fields;
      }
    }
  }

  /** Segments joined by '&'. */
  function Join(segs: seq<string>): string {
    if |segs| == 0 then []
    else if |segs| == 1 then segs[0]
    else segs[0] + "&" + Join(segs[1..])
  }

  /** Non-empty segments without '&', each read as one field, are read back
      as those fields in order. */
  lemma {:induction false} ParseJoin(segs: seq<string>, fields: seq<Field>)
    requires |segs| == |fields|
    requires forall i :: 0 <= i < |segs| ==> segs[i] != [] && '&' !in segs[i]
    requires forall i :: 0 <= i < |segs| ==> ParseField(segs[i]) == Some(fields[i])
    ensures Parse(Join(segs)) == Some(fields)
  {
    if |segs| == 1 {
      ParseLast(segs[0]);
      assert fields == [fields[0]];
    } else if |segs| > 1 {
      var restSegs, restFields := segs[1..], fields[1..];
      forall i | 0 <= i < |restSegs|
        ensures restSegs[i] != [] && '&' !in restSegs[i] && ParseField(restSegs[i]) == Some(restFields[i])
      {
        assert restSegs[i] == segs[i + 1] && restFields[i] == fields[i + 1];
      }
      ParseJoin(restSegs, restFields);
      assert segs[0] != [] && '&' !in segs[0] && ParseField(segs[0]) == Some(fields[0]);
      ParseNext(segs[0], Join(restSegs));
      assert fields == [fields[0]] + restFields;
    }
  }
}
