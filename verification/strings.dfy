/** String assembly and scanning: JavaScript's `join`, and the prefix scans
    the decoders use to read serialized text back. */
module Strings {

  import opened Wrappers

  /** JavaScript's `Array.prototype.join`: the parts in order with `sep`
      between each pair of neighbours. */
  function Join(parts: seq<string>, sep: string): string
  {
    if |parts| == 0 then ""
    else if |parts| == 1 then parts[0]
    else parts[0] + sep + Join(parts[1..], sep)
  }

  /** Every part with `sep` placed in front of it. */
  function Prefixed(sep: string, parts: seq<string>): (r: seq<string>)
    ensures |r| == |parts|
    ensures forall i :: 0 <= i < |parts| ==> r[i] == sep + parts[i]
  {
    seq(|parts|, i requires 0 <= i < |parts| => sep + parts[i])
  }

  /** One `name="value"` attribute, or the bare `name` when there is no value.
      Values are double-quoted and never escaped. */
  function AttrText(name: string, value: Option<string>): string
  {
    match value
    case None => name
    case Some(v) => name + "=\"" + v + "\""
  }

  /** No character of `s` is one of `stops`. */
  predicate NoneOf(s: string, stops: set<char>)
  {
    forall i :: 0 <= i < |s| ==> s[i] !in stops
  }

  /** Length of the longest prefix of `s` free of `stops`. */
  function Span(s: string, stops: set<char>): (k: nat)
    ensures k <= |s|
    ensures NoneOf(s[..k], stops)
    ensures k < |s| ==> s[k] in stops
    decreases |s|
  {
    if |s| == 0 || s[0] in stops then 0 else 1 + Span(s[1..], stops)
  }

  /** Splits `s` at every occurrence of `sep` (JavaScript's `split` with a
      one-character separator); the inverse of `Join` for separator-free parts. */
  function Split(s: string, sep: char): (r: seq<string>)
    ensures |r| > 0
    decreases |s|
  {
    var k := Span(s, {sep});
    if k == |s| then [s] else [s[..k]] + Split(s[k + 1..], sep)
  }

  /** A scan stops exactly at the end of a stop-free prefix that is followed
      by a stop character or by nothing. */
  lemma {:induction false} SpanOf(a: string, b: string, stops: set<char>)
    requires NoneOf(a, stops)
    requires b == [] || b[0] in stops
    ensures Span(a + b, stops) == |a|
    decreases |a|
  {
    if |a| == 0 {
      assert a + b == b;
    } else {
      assert (a + b)[0] == a[0];
      assert (a + b)[1..] == a[1..] + b;
      SpanOf(a[1..], b, stops);
    }
  }

  lemma NoneOfAppend(a: string, b: string, stops: set<char>)
    requires NoneOf(a, stops) && NoneOf(b, stops)
    ensures NoneOf(a + b, stops)
  {
    forall i | 0 <= i < |a + b|
      ensures (a + b)[i] !in stops
    {
      if i < |a| {
        assert (a + b)[i] == a[i];
      } else {
        assert (a + b)[i] == b[i - |a|];
      }
    }
  }

  /** Joining stop-free parts with a stop-free separator yields stop-free text. */
  lemma {:induction false} NoneOfJoin(parts: seq<string>, sep: string, stops: set<char>)
    requires forall i :: 0 <= i < |parts| ==> NoneOf(parts[i], stops)
    requires NoneOf(sep, stops)
    ensures NoneOf(Join(parts, sep), stops)
    decreases |parts|
  {
    if |parts| > 1 {
      NoneOfJoin(parts[1..], sep, stops);
      NoneOfAppend(parts[0], sep, stops);
      NoneOfAppend(parts[0] + sep, Join(parts[1..], sep), stops);
    }
  }

  /** Joining two non-empty lists puts exactly one separator at the seam. */
  lemma {:induction false} JoinAppend(a: seq<string>, b: seq<string>, sep: string)
    requires |a| > 0 && |b| > 0
    ensures Join(a + b, sep) == Join(a, sep) + sep + Join(b, sep)
    decreases |a|
  {
    if |a| == 1 {
      assert (a + b)[1..] == b;
    } else {
      assert (a + b)[1..] == a[1..] + b;
      JoinAppend(a[1..], b, sep);
    }
  }

  /** Concatenation regrouped to the right. */
  lemma Assoc<T>(a: seq<T>, b: seq<T>, c: seq<T>)
    ensures a + (b + c) == a + b + c
  {
  }

  /** A join of one part is that part. */
  lemma JoinSingle(part: string, sep: string)
    ensures Join([part], sep) == part
  {
  }

  /** Joining without a separator distributes over list concatenation. */
  lemma JoinConcat(a: seq<string>, b: seq<string>)
    ensures Join(a + b, "") == Join(a, "") + Join(b, "")
  {
    if |a| == 0 {
      assert a + b == b;
    } else if |b| == 0 {
      assert a + b == a;
    } else {
      JoinAppend(a, b, "");
    }
  }

  /** A separator in front of a join is the same as the separator in front of
      every part: each part is preceded by exactly one separator. */
  lemma {:induction false} LeadingSeparator(parts: seq<string>, sep: string)
    requires |parts| > 0
    ensures sep + Join(parts, sep) == Join(Prefixed(sep, parts), "")
    decreases |parts|
  {
    var p := Prefixed(sep, parts);
    if |parts| == 1 {
    } else {
      LeadingSeparator(parts[1..], sep);
      assert Prefixed(sep, parts[1..]) == p[1..];
      assert Join(p, "") == p[0] + "" + Join(p[1..], "");
    }
  }

  /** A join of non-empty parts is empty exactly when there are no parts. */
  lemma JoinEmpty(parts: seq<string>, sep: string)
    requires forall i :: 0 <= i < |parts| ==> |parts[i]| > 0
    ensures Join(parts, sep) == "" <==> |parts| == 0
  {
    if |parts| > 1 {
      assert |Join(parts, sep)| >= |parts[0]|;
    }
  }

  /** `Split` reads back what `Join` wrote, provided no part contains the separator. */
  lemma {:induction false} SplitJoin(parts: seq<string>, sep: char)
    requires |parts| > 0
    requires forall i :: 0 <= i < |parts| ==> NoneOf(parts[i], {sep})
    ensures Split(Join(parts, [sep]), sep) == parts
    decreases |parts|
  {
    if |parts| == 1 {
      SpanOf(parts[0], [], {sep});
      assert parts[0] + [] == parts[0];
    } else {
      var tail := Join(parts[1..], [sep]);
      var s := parts[0] + ([sep] + tail);
      assert Join(parts, [sep]) == s;
      SpanOf(parts[0], [sep] + tail, {sep});
      var k := |parts[0]|;
      assert s[..k] == parts[0];
      assert s[k + 1..] == tail;
      SplitJoin(parts[1..], sep);
    }
  }
}
