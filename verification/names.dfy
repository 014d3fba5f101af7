/**
 Metric-name derivation: the span target has every `"::"` replaced by `"_"`
 (leftmost first, matches never overlapping, as Rust's `str::replace` does),
 then `_<name>` is appended for the counter and `_<name>_ns` for the timing.

 `Split`/`Join` give an independent description of the same rewrite: the
 target is cut at its separators into the unique well-formed list of pieces,
 and the rewrite glues the pieces back with `"_"` instead of `"::"`.
 */
module Names {

  /**
   The namespace separator of span targets. The predicates below spell it out
   as two `':'` characters so that they can be stated index by index.
   */
  const Sep: string := "::"

  /** Static span metadata: the target (module path) and the span name. */
  datatype SpanMetadata = SpanMetadata(target: string, name: string)

  /** `s` contains no occurrence of `"::"`. */
  predicate NoSep(s: string) {
    forall i :: 0 <= i < |s| - 1 ==> !(s[i] == ':' && s[i + 1] == ':')
  }

  /** `s` begins with the separator. */
  predicate StartsWithSep(s: string)
    ensures StartsWithSep(s) <==> |s| >= 2 && s[..2] == Sep
  {
    |s| >= 2 && s[0] == ':' && s[1] == ':'
  }

  /** `s` ends with a colon, so a separator right after it would overlap a match further left. */
  predicate EndsWithColon(s: string) {
    |s| > 0 && s[|s| - 1] == ':'
  }

  /** `target.replace("::", "_")`. */
  function ReplaceColons(s: string): (r: string)
    ensures |r| <= |s|
    ensures NoSep(r)
    ensures NoSep(s) ==> r == s
    ensures |s| > 0 ==> |r| > 0 && (r[0] == ':' ==> s[0] == ':')
    decreases |s|
  {
    if |s| < 2 then s
    else if StartsWithSep(s) then "_" + ReplaceColons(s[2..])
    else [s[0]] + ReplaceColons(s[1..])
  }

  /** Name of the enter counter: `<target>_<name>` with the target rewritten. */
  function CounterName(m: SpanMetadata): (r: string)
    ensures var t := ReplaceColons(m.target);
      && |r| == |t| + 1 + |m.name|
      && r[..|t|] == t && r[|t|] == '_' && r[|t| + 1..] == m.name
    ensures NoSep(m.target) ==> r == m.target + "_" + m.name
  {
    ReplaceColons(m.target) + "_" + m.name
  }

  /** Name of the timing: `<target>_<name>_ns` with the target rewritten. */
  function TimingName(m: SpanMetadata): (r: string)
    ensures r == CounterName(m) + "_ns"
  {
    ReplaceColons(m.target) + "_" + m.name + "_ns"
  }

  /** Concatenation of `parts` with `sep` between neighbours. */
  function Join(parts: seq<string>, sep: string): string {
    if |parts| == 0 then ""
    else if |parts| == 1 then parts[0]
    else parts[0] + sep + Join(parts[1..], sep)
  }

  /** Pieces of `s` between its separators, found leftmost first and never overlapping. */
  function Split(s: string): (parts: seq<string>)
    ensures |parts| >= 1
    ensures StartsWithSep(s) ==> parts[0] == ""
    ensures |s| > 0 && !StartsWithSep(s) ==> |parts[0]| > 0 && parts[0][0] == s[0]
    decreases |s|
  {
    if |s| < 2 then [s]
    else if StartsWithSep(s) then [""] + Split(s[2..])
    else
      var rest := Split(s[1..]);
      [[s[0]] + rest[0]] + rest[1..]
  }

  /**
   A list of pieces that `Split` can produce: no piece contains the
   separator, and no piece but the last ends with a colon (otherwise the
   leftmost match would have started one character earlier).
   */
  predicate WellFormed(parts: seq<string>) {
    && |parts| >= 1
    && (forall i :: 0 <= i < |parts| ==> NoSep(parts[i]))
    && (forall i :: 0 <= i < |parts| - 1 ==> !EndsWithColon(parts[i]))
  }

  /** Text prefixed to the first piece comes out in front of the whole join. */
  lemma JoinConsHead(c: string, p: string, ps: seq<string>, sep: string)
    ensures Join([c + p] + ps, sep) == c + Join([p] + ps, sep)
  {
    if |ps| > 0 {
      assert ([c + p] + ps)[1..] == ps;
      assert ([p] + ps)[1..] == ps;
    }
  }

  /** Splitting at the separators and gluing the pieces back with it returns the input. */
  lemma {:induction false} JoinSplit(s: string)
    ensures Join(Split(s), Sep) == s
    decreases |s|
  {
    if |s| < 2 {
    } else if StartsWithSep(s) {
      var rest := Split(s[2..]);
      JoinSplit(s[2..]);
      var parts := [""] + rest;
      assert Split(s) == parts;
      assert parts[1..] == rest;
      assert Join(parts, Sep) == "" + Sep + Join(rest, Sep);
      assert s == Sep + s[2..];
    } else {
      var rest := Split(s[1..]);
      JoinSplit(s[1..]);
      assert Split(s) == [[s[0]] + rest[0]] + rest[1..];
      assert rest == [rest[0]] + rest[1..];
      JoinConsHead([s[0]], rest[0], rest[1..], Sep);
      assert Join(Split(s), Sep) == [s[0]] + Join(rest, Sep);
      assert s == [s[0]] + s[1..];
    }
  }

  /** The rewrite is the split glued back together with `"_"` in place of `"::"`. */
  lemma {:induction false} ReplaceIsJoinOfSplit(s: string)
    ensures ReplaceColons(s) == Join(Split(s), "_")
    decreases |s|
  {
    if |s| < 2 {
    } else if StartsWithSep(s) {
      var rest := Split(s[2..]);
      ReplaceIsJoinOfSplit(s[2..]);
      assert ([""] + rest)[1..] == rest;
    } else {
      var rest := Split(s[1..]);
      ReplaceIsJoinOfSplit(s[1..]);
      assert rest == [rest[0]] + rest[1..];
      JoinConsHead([s[0]], rest[0], rest[1..], "_");
    }
  }

  /** Every list `Split` returns is well formed. */
  lemma {:induction false} SplitWellFormed(s: string)
    ensures WellFormed(Split(s))
    decreases |s|
  {
    var parts := Split(s);
    if |s| < 2 {
    } else if StartsWithSep(s) {
      SplitWellFormed(s[2..]);
      var rest := Split(s[2..]);
      assert parts == [""] + rest;
      forall i | 0 <= i < |parts|
        ensures NoSep(parts[i])
      {
        if i > 0 { assert parts[i] == rest[i - 1]; }
      }
      forall i | 0 <= i < |parts| - 1
        ensures !EndsWithColon(parts[i])
      {
        if i > 0 { assert parts[i] == rest[i - 1]; }
      }
    } else {
      SplitWellFormed(s[1..]);
      var rest := Split(s[1..]);
      var head := [s[0]] + rest[0];
      assert parts == [head] + rest[1..];
      assert NoSep(head) by {
        forall i | 0 <= i < |head| - 1
          ensures !(head[i] == ':' && head[i + 1] == ':')
        {
          if i == 0 {
            assert head[1] == rest[0][0];
            assert rest[0][0] == s[1];
          } else {
            assert head[i] == rest[0][i - 1] && head[i + 1] == rest[0][i];
          }
        }
      }
      forall i | 0 <= i < |parts|
        ensures NoSep(parts[i])
      {
        if i > 0 { assert parts[i] == rest[i]; }
      }
      forall i | 0 <= i < |parts| - 1
        ensures !EndsWithColon(parts[i])
      {
        if i > 0 {
          assert parts[i] == rest[i];
        } else if |rest[0]| > 0 {
          assert head[|head| - 1] == rest[0][|rest[0]| - 1];
        } else {
          // the first piece of the tail is empty only when the tail starts with "::"
          assert StartsWithSep(s[1..]);
          assert s[0] != ':';
        }
      }
    }
  }

  /** A piece without separator that does not end in a colon is cut off exactly at the separator after it. */
  lemma {:induction false} SplitAtFirstSep(p: string, t: string)
    requires NoSep(p) && !EndsWithColon(p)
    ensures Split(p + Sep + t) == [p] + Split(t)
    decreases |p|
  {
    var s := p + Sep + t;
    if |p| == 0 {
      assert s == Sep + t;
      assert s[2..] == t;
    } else {
      assert !StartsWithSep(s) by {
        if |p| == 1 { assert s[1] == ':'; assert p[0] == s[0]; }
        else { assert s[0] == p[0] && s[1] == p[1]; }
      }
      var p' := p[1..];
      assert NoSep(p') by {
        forall i | 0 <= i < |p'| - 1
          ensures !(p'[i] == ':' && p'[i + 1] == ':')
        {
          assert p'[i] == p[i + 1] && p'[i + 1] == p[i + 2];
        }
      }
      assert !EndsWithColon(p') by {
        if |p'| > 0 { assert p'[|p'| - 1] == p[|p| - 1]; }
      }
      assert s[1..] == p' + Sep + t;
      SplitAtFirstSep(p', t);
      assert p == [s[0]] + p';
    }
  }

  /** A string without separator is a single piece. */
  lemma {:induction false} SplitNoSep(s: string)
    requires NoSep(s)
    ensures Split(s) == [s]
    decreases |s|
  {
    if |s| >= 2 {
      assert !StartsWithSep(s);
      assert NoSep(s[1..]) by {
        forall i | 0 <= i < |s[1..]| - 1
          ensures !(s[1..][i] == ':' && s[1..][i + 1] == ':')
        {
          assert s[1..][i] == s[i + 1] && s[1..][i + 1] == s[i + 2];
        }
      }
      SplitNoSep(s[1..]);
      assert s == [s[0]] + s[1..];
    }
  }

  /** Splitting is the inverse of joining: the well-formed pieces of a string are unique. */
  lemma {:induction false} SplitJoin(parts: seq<string>)
    requires WellFormed(parts)
    ensures Split(Join(parts, Sep)) == parts
    decreases |parts|
  {
    if |parts| == 1 {
      SplitNoSep(parts[0]);
    } else {
      var rest := parts[1..];
      assert WellFormed(rest) by {
        forall i | 0 <= i < |rest|
          ensures NoSep(rest[i])
        {
          assert rest[i] == parts[i + 1];
        }
        forall i | 0 <= i < |rest| - 1
          ensures !EndsWithColon(rest[i])
        {
          assert rest[i] == parts[i + 1];
        }
      }
      SplitJoin(rest);
      SplitAtFirstSep(parts[0], Join(rest, Sep));
      assert Join(parts, Sep) == parts[0] + Sep + Join(rest, Sep);
      assert parts == [parts[0]] + rest;
    }
  }

  /** A target with no separator keeps its name: `"app"` + `"shave"` gives `"app_shave"`. */
  lemma PlainTargetName(m: SpanMetadata)
    requires NoSep(m.target)
    ensures CounterName(m) == m.target + "_" + m.name
    ensures TimingName(m) == m.target + "_" + m.name + "_ns"
  {
  }

  /** Rewriting proceeds left to right: the leading piece is kept and its separator becomes `"_"`. */
  lemma ReplaceAtFirstSep(p: string, t: string)
    requires NoSep(p) && !EndsWithColon(p)
    ensures ReplaceColons(p + Sep + t) == p + "_" + ReplaceColons(t)
  {
    ReplaceIsJoinOfSplit(p + Sep + t);
    ReplaceIsJoinOfSplit(t);
    SplitAtFirstSep(p, t);
    var rest := Split(t);
    assert ([p] + rest)[1..] == rest;
  }

  /**
   A two-segment target `a::b` names its metrics `a_b_<name>` and
   `a_b_<name>_ns` (for instance `svc::job` with span `run` gives `svc_job_run`).
   */
  lemma NamespacedTargetName(a: string, b: string, name: string)
    requires NoSep(a) && !EndsWithColon(a) && NoSep(b)
    ensures CounterName(SpanMetadata(a + Sep + b, name)) == a + "_" + b + "_" + name
    ensures TimingName(SpanMetadata(a + Sep + b, name)) == a + "_" + b + "_" + name + "_ns"
  {
    ReplaceAtFirstSep(a, b);
  }
}
