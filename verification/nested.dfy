/** Feature paths of format 3: a comma-separated list of keys walked into a
    loosely typed record (`get_nested` and `_get_nested`). */
module Nested {
  import opened Types

  /** Python's `s.split(",")`: the pieces between commas, at least one, and
      empty pieces kept. */
  function Split(s: string): (parts: seq<string>)
    ensures |parts| >= 1
    ensures forall i :: 0 <= i < |parts| ==> ',' !in parts[i]
    decreases |s|
  {
    if |s| == 0 then [""]
    else
      var rest := Split(s[1..]);
      if s[0] == ',' then [""] + rest
      else [[s[0]] + rest[0]] + rest[1..]
  }

  /** Python's `",".join(parts)`. */
  function Join(parts: seq<string>): string
    requires |parts| >= 1
  {
    if |parts| == 1 then parts[0] else parts[0] + "," + Join(parts[1..])
  }

  /** Joining the pieces of a split gives back the string. */
  lemma {:induction false} JoinSplit(s: string)
    ensures Join(Split(s)) == s
    decreases |s|
  {
    if |s| > 0 {
      var rest := Split(s[1..]);
      JoinSplit(s[1..]);
      if s[0] == ',' {
        assert ([""] + rest)[1..] == rest;
        assert s == "," + s[1..];
      } else if |rest| == 1 {
        assert s == [s[0]] + s[1..];
      } else {
        var parts := [[s[0]] + rest[0]] + rest[1..];
        assert parts[1..] == rest[1..];
        assert Join(rest) == rest[0] + "," + Join(rest[1..]);
        assert s == [s[0]] + s[1..];
      }
    }
  }

  /** Splitting a word without commas onto the front of a string extends the
      first piece. */
  lemma {:induction false} SplitWordPrefix(w: string, s: string)
    requires ',' !in w
    ensures Split(w + s) == [w + Split(s)[0]] + Split(s)[1..]
    decreases |w|
  {
    if |w| > 0 {
      SplitWordPrefix(w[1..], s);
      assert (w + s)[1..] == w[1..] + s;
      assert (w + s)[0] == w[0];
      assert [w[0]] + (w[1..] + Split(s)[0]) == w + Split(s)[0];
    } else {
      assert w + s == s;
      assert w + Split(s)[0] == Split(s)[0];
      assert Split(s) == [Split(s)[0]] + Split(s)[1..];
    }
  }

  /** Splitting a join of comma-free pieces gives back the pieces: `Split`
      and `Join` are inverse on the paths a user can write. */
  lemma {:induction false} SplitJoin(parts: seq<string>)
    requires |parts| >= 1
    requires forall i :: 0 <= i < |parts| ==> ',' !in parts[i]
    ensures Split(Join(parts)) == parts
    decreases |parts|
  {
    if |parts| == 1 {
      SplitWordPrefix(parts[0], "");
      assert parts[0] + "" == parts[0];
    } else {
      var tail := Join(parts[1..]);
      SplitJoin(parts[1..]);
      assert ("," + tail)[1..] == tail;
      assert Split("," + tail) == [""] + parts[1..];
      assert parts[0] + "," + tail == parts[0] + ("," + tail);
      SplitWordPrefix(parts[0], "," + tail);
      assert parts[0] + "" == parts[0];
      assert parts == [parts[0]] + parts[1..];
    }
  }

  /** `nested_feat.split(",")[-1]`: the display name of a feature path. */
  function LastSegment(feature: string): (name: string)
    ensures ',' !in name
    ensures ',' !in feature ==> name == feature
  {
    SplitWord(feature);
    var parts := Split(feature);
    parts[|parts| - 1]
  }

  /** A path without commas splits into itself alone. */
  lemma SplitWord(w: string)
    ensures ',' !in w ==> Split(w) == [w]
  {
    if ',' !in w {
      SplitWordPrefix(w, "");
      assert w + "" == w;
    }
  }

  /** Joining pieces ends with the last piece, after a comma when there are
      several. */
  lemma {:induction false} JoinEndsWithLast(parts: seq<string>)
    requires |parts| >= 1
    ensures |Join(parts)| >= |parts[|parts| - 1]|
    ensures Join(parts)[|Join(parts)| - |parts[|parts| - 1]|..] == parts[|parts| - 1]
    ensures |parts| > 1 ==>
              (|Join(parts)| > |parts[|parts| - 1]|
               && Join(parts)[|Join(parts)| - |parts[|parts| - 1]| - 1] == ',')
    decreases |parts|
  {
    if |parts| > 1 {
      JoinEndsWithLast(parts[1..]);
      var tail := Join(parts[1..]);
      var last := parts[|parts| - 1];
      assert parts[1..][|parts[1..]| - 1] == last;
      var j := parts[0] + "," + tail;
      assert j[|j| - |tail|..] == tail;
      assert j[|j| - |last|..] == tail[|tail| - |last|..];
      if |parts| == 2 {
        assert j[|j| - |last| - 1] == ',';
      } else {
        assert j[|j| - |last| - 1] == tail[|tail| - |last| - 1];
      }
    }
  }

  /** The display name is the comma-free tail of the path: the whole path
      when it has no comma, otherwise what follows its last comma. */
  lemma LastSegmentIsSuffix(feature: string)
    ensures ',' !in LastSegment(feature)
    ensures |LastSegment(feature)| <= |feature|
    ensures feature[|feature| - |LastSegment(feature)|..] == LastSegment(feature)
    ensures |LastSegment(feature)| < |feature| ==> feature[|feature| - |LastSegment(feature)| - 1] == ','
  {
    var parts := Split(feature);
    JoinSplit(feature);
    JoinEndsWithLast(parts);
    if |parts| == 1 {
      assert Join(parts) == parts[0];
    }
  }

  /** `_get_nested`: walk `path` into `v`. Only a record can be indexed by a
      string key; a missing key or any other value is a failed lookup. */
  function GetPath(v: Value, path: seq<string>): (r: Option<Value>)
    ensures |path| == 0 ==> r == Some(v)
    ensures |path| > 0 && r.Some? ==> v.Record? && path[0] in v.fields
    decreases |path|
  {
    if |path| == 0 then Some(v)
    else match v
      case Record(fields) =>
        if path[0] in fields then GetPath(fields[path[0]], path[1..]) else None
      case _ => None
  }

  /** Walking a concatenated path is walking its two parts in turn. */
  lemma {:induction false} GetPathAppend(v: Value, p: seq<string>, q: seq<string>)
    ensures GetPath(v, p + q) == match GetPath(v, p)
                                  case None => None
                                  case Some(w) => GetPath(w, q)
    decreases |p|
  {
    if |p| > 0 {
      assert (p + q)[0] == p[0];
      assert (p + q)[1..] == p[1..] + q;
      if v.Record? && p[0] in v.fields {
        GetPathAppend(v.fields[p[0]], p[1..], q);
      }
    } else {
      assert p + q == q;
    }
  }

  /** `get_nested`: split the path on commas and walk it. The split has at
      least one piece, so the record itself is never returned unwalked: any
      value other than a record fails. */
  function GetNested(v: Value, feature: string): (r: Option<Value>)
    ensures !v.Record? ==> r.None?
  {
    GetPath(v, Split(feature))
  }

  /** A path without commas is a single key looked up in a record. */
  lemma GetNestedSingleKey(v: Value, feature: string)
    requires ',' !in feature
    ensures GetNested(v, feature)
         == if v.Record? && feature in v.fields then Some(v.fields[feature]) else None
  {
    SplitWordPrefix(feature, "");
    assert feature + "" == feature;
    var path := Split(feature);
    assert path == [feature];
    assert path[1..] == [];
    if v.Record? && feature in v.fields {
      assert GetPath(v, path) == GetPath(v.fields[feature], []);
    }
  }
}
