/** Key paths: the dotted keys of the translation table (`"farewell.short"`)
    and the list of segments they stand for (`["farewell", "short"]`).
    `Split` is JavaScript's `key.split('.')`, which `dset` applies to the
    key before walking the document; `Join` is its inverse. */
module KeyPaths {

  const Delimiter: char := '.'

  /** The segments of `s` between delimiters, in order. Like `split('.')`
      there is always at least one segment: `""` gives `[""]`,
      `"a."` gives `["a", ""]`. */
  function Split(s: string): (segments: seq<string>)
    ensures |segments| >= 1
    ensures forall i :: 0 <= i < |segments| ==> Delimiter !in segments[i]
    decreases |s|
  {
    if s == [] then [""]
    else
      var rest := Split(s[1..]);
      if s[0] == Delimiter then [""] + rest
      else [[s[0]] + rest[0]] + rest[1..]
  }

  /** The segments glued back together with the delimiter between them. */
  function Join(segments: seq<string>): (key: string)
    decreases |segments|
  {
    if segments == [] then ""
    else if |segments| == 1 then segments[0]
    else segments[0] + [Delimiter] + Join(segments[1..])
  }

  /** Splitting loses nothing: the key is recovered from its segments. */
  lemma {:induction false} JoinSplit(s: string)
    ensures Join(Split(s)) == s
    decreases |s|
  {
    if s != [] {
      JoinSplit(s[1..]);
      var rest := Split(s[1..]);
      if s[0] != Delimiter {
        if |rest| > 1 {
          assert Join(rest) == rest[0] + [Delimiter] + Join(rest[1..]);
          assert ([[s[0]] + rest[0]] + rest[1..])[1..] == rest[1..];
        }
      } else {
        assert ([""] + rest)[1..] == rest;
      }
      assert s == [s[0]] + s[1..];
    }
  }

  /** Splitting a delimiter-free prefix onto a string only extends the
      first segment. */
  lemma {:induction false} SplitPrefix(x: string, t: string)
    requires Delimiter !in x
    ensures Split(x + t) == [x + Split(t)[0]] + Split(t)[1..]
    decreases |x|
  {
    if x != [] {
      SplitPrefix(x[1..], t);
      assert (x + t)[1..] == x[1..] + t;
      assert x[1..] + Split(t)[0] == (x + Split(t)[0])[1..];
      assert [x[0]] + (x[1..] + Split(t)[0]) == x + Split(t)[0];
    } else {
      assert x + t == t && x + Split(t)[0] == Split(t)[0];
      assert Split(t) == [Split(t)[0]] + Split(t)[1..];
    }
  }

  /** Joining then splitting gives the segments back, provided none of
      them contains the delimiter; so the two directions together make
      `Split` a bijection between keys and non-empty segment lists. */
  lemma {:induction false} SplitJoin(segments: seq<string>)
    requires |segments| >= 1
    requires forall i :: 0 <= i < |segments| ==> Delimiter !in segments[i]
    ensures Split(Join(segments)) == segments
    decreases |segments|
  {
    var x := segments[0];
    if |segments| == 1 {
      SplitPrefix(x, "");
      assert x + "" == x;
      assert x + Split("")[0] == x;
    } else {
      var tail := segments[1..];
      SplitJoin(tail);
      var t := [Delimiter] + Join(tail);
      assert Join(segments) == x + t;
      SplitPrefix(x, t);
      assert t[0] == Delimiter && t[1..] == Join(tail);
      assert Split(t) == [""] + tail;
      assert x + "" == x;
    }
  }

  /** Two keys split to the same segments only if they are the same key. */
  lemma SplitInjective(s: string, t: string)
    requires Split(s) == Split(t)
    ensures s == t
  {
    JoinSplit(s);
    JoinSplit(t);
  }
}
