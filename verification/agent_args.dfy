/**
  The parsing of the agent's argument string in `SironaAgent`: `extractConfig` reads the
  value after a `key=` prefix, `extractParameters` splits `k=v|k2=v2|...` into a map.
  A `null` argument string is `None`.
*/
module AgentArgs {
  import opened Outcomes

  // ---------------------------------------------------------------------------
  // The java.lang.String searches used by the parsers

  /** `pat` occurs in `s` starting at index `k`. */
  predicate OccursAt(s: string, pat: string, k: int) {
    0 <= k && k + |pat| <= |s| && s[k..k + |pat|] == pat
  }

  function IndexOfFrom(s: string, pat: string, from: nat): (r: Option<nat>)
    ensures r.Some? ==>
      && from <= r.value
      && OccursAt(s, pat, r.value)
      && forall k :: from <= k < r.value ==> !OccursAt(s, pat, k)
    ensures r.None? ==> forall k :: from <= k ==> !OccursAt(s, pat, k)
    decreases |s| + 1 - from
  {
    if from + |pat| > |s| then None
    else if s[from..from + |pat|] == pat then Some(from)
    else IndexOfFrom(s, pat, from + 1)
  }

  /** `s.indexOf(pat)`, with `None` for -1: the first index at which `pat` occurs. */
  function IndexOf(s: string, pat: string): (r: Option<nat>)
    ensures r.Some? ==> OccursAt(s, pat, r.value) && forall k :: 0 <= k < r.value ==> !OccursAt(s, pat, k)
    ensures r.None? <==> forall k :: !OccursAt(s, pat, k)
  {
    IndexOfFrom(s, pat, 0)
  }

  /** `s.indexOf(c, from)`, with `None` for -1: the first index at or after `from` holding `c`. */
  function IndexOfChar(s: string, c: char, from: nat): (r: Option<nat>)
    ensures r.Some? ==> from <= r.value < |s| && s[r.value] == c && forall k :: from <= k < r.value ==> s[k] != c
    ensures r.None? ==> forall k :: from <= k < |s| ==> s[k] != c
    decreases |s| - from
  {
    if from >= |s| then None
    else if s[from] == c then Some(from)
    else IndexOfChar(s, c, from + 1)
  }

  // ---------------------------------------------------------------------------
  // extractConfig

  /**
    `extractConfig(agentArgs, startStr)`: `None` for a `null` argument string or one that
    does not contain `startStr`; otherwise the text after the first occurrence of
    `startStr` up to the next '|' or the end. The separator test is `separator > 0`, so a
    '|' found at index 0 is ignored and the text runs to the end.
  */
  function ExtractConfig(args: Option<string>, startStr: string): (r: Option<string>)
    ensures r.None? <==> args.None? || forall k :: !OccursAt(args.value, startStr, k)
    ensures r.Some? ==>
      var a := args.value;
      var start := IndexOf(a, startStr).value + |startStr|;
      && start + |r.value| <= |a|
      && a[start..start + |r.value|] == r.value
      && (start + |r.value| == |a| || a[start + |r.value|] == '|')
      && (startStr == [] && a != [] && a[0] == '|' ==> r.value == a)
      && (!(startStr == [] && a != [] && a[0] == '|') ==> '|' !in r.value)
  {
    if args.None? then None
    else
      var a := args.value;
      match IndexOf(a, startStr)
      case None => None
      case Some(k) =>
        var start := k + |startStr|;
        var endIdx := match IndexOfChar(a, '|', start)
          case Some(separator) => if separator > 0 then separator else |a|
          case None => |a|;
        Some(a[start..endIdx])
  }

  /** With an empty `startStr` and an argument string that starts with '|', the result keeps the '|'. */
  lemma ExtractConfigEmptyKeyKeepsSeparator()
    ensures ExtractConfig(Some("|x"), "") == Some("|x")
  {
    assert IndexOf("|x", "") == Some(0);
    assert IndexOfChar("|x", '|', 0) == Some(0);
    assert "|x"[0..2] == "|x";
  }

  /**
    `extractConfig` with the separator test `separator >= 0`: the value never contains a
    '|', whatever `startStr` is.
  */
  function ExtractConfigCorrected(args: Option<string>, startStr: string): (r: Option<string>)
    ensures r.None? <==> args.None? || forall k :: !OccursAt(args.value, startStr, k)
    ensures r.Some? ==>
      var a := args.value;
      var start := IndexOf(a, startStr).value + |startStr|;
      && start + |r.value| <= |a|
      && a[start..start + |r.value|] == r.value
      && (start + |r.value| == |a| || a[start + |r.value|] == '|')
      && '|' !in r.value
  {
    if args.None? then None
    else
      var a := args.value;
      match IndexOf(a, startStr)
      case None => None
      case Some(k) =>
        var start := k + |startStr|;
        var endIdx := match IndexOfChar(a, '|', start)
          case Some(separator) => separator
          case None => |a|;
        Some(a[start..endIdx])
  }

  // ---------------------------------------------------------------------------
  // extractParameters

  /** Joins pieces with '|' between them. */
  function Join(segs: seq<string>): string {
    if |segs| == 0 then []
    else if |segs| == 1 then segs[0]
    else segs[0] + "|" + Join(segs[1..])
  }

  /** Every '|'-separated piece of `s`, empty ones included. */
  function Segments(s: string): (r: seq<string>)
    ensures |r| >= 1
    ensures forall k :: 0 <= k < |r| ==> '|' !in r[k]
    ensures Join(r) == s
    decreases |s|
  {
    match IndexOfChar(s, '|', 0)
    case None => [s]
    case Some(i) =>
      var rest := Segments(s[i + 1..]);
      assert s == s[..i] + "|" + s[i + 1..];
      [s[..i]] + rest
  }

  /** Removes the empty pieces at the end. */
  function DropTrailingEmpty(segs: seq<string>): (r: seq<string>)
    ensures |r| <= |segs| && r == segs[..|r|]
    ensures |r| == 0 || r[|r| - 1] != []
    ensures forall k :: |r| <= k < |segs| ==> segs[k] == []
  {
    if |segs| > 0 && segs[|segs| - 1] == [] then DropTrailingEmpty(segs[..|segs| - 1])
    else segs
  }

  /**
    `s.split("\\|")`: without a '|' the string itself; otherwise the '|'-separated pieces
    with the trailing empty ones removed.
  */
  function Split(s: string): (r: seq<string>)
    ensures forall k :: 0 <= k < |r| ==> '|' !in r[k]
    ensures '|' !in s ==> r == [s]
    ensures '|' in s ==>
      var segs := Segments(s);
      && |r| <= |segs| && r == segs[..|r|]
      && (|r| == 0 || r[|r| - 1] != [])
      && forall k :: |r| <= k < |segs| ==> segs[k] == []
  {
    if '|' !in s then [s] else DropTrailingEmpty(Segments(s))
  }

  /** The key of a parameter: the text before its first '=', or all of it. */
  function Key(seg: string): (k: string)
    ensures '=' !in k
    ensures |k| <= |seg| && k == seg[..|k|]
  {
    match IndexOfChar(seg, '=', 0)
    case Some(i) => seg[..i]
    case None => seg
  }

  /** The value of a parameter: the text after its first '=', or "" when there is none. */
  function Value(seg: string): (v: string)
    ensures '=' in seg ==> seg == Key(seg) + "=" + v
    ensures '=' !in seg ==> v == [] && Key(seg) == seg
  {
    match IndexOfChar(seg, '=', 0)
    case Some(i) =>
      assert seg == seg[..i] + "=" + seg[i + 1..];
      seg[i + 1..]
    case None => []
  }

  /** No later piece has the same key as piece `j`. */
  predicate LastWithKey(segs: seq<string>, j: int) {
    && 0 <= j < |segs|
    && forall j' :: j < j' < |segs| ==> Key(segs[j']) != Key(segs[j])
  }

  /** The loop of `extractParameters`: puts every piece into `m`, later pieces overwriting earlier ones. */
  function Collect(m: map<string, string>, segs: seq<string>): (r: map<string, string>)
    ensures |segs| > 0 ==> var last := segs[|segs| - 1]; Key(last) in r && r[Key(last)] == Value(last)
    decreases |segs|
  {
    if |segs| == 0 then m
    else
      assert |segs| > 1 ==> segs[1..][|segs| - 2] == segs[|segs| - 1];
      Collect(m[Key(segs[0]) := Value(segs[0])], segs[1..])
  }

  /** The loop's keys: those of `m` and of every piece. */
  lemma {:induction false} CollectKeys(m: map<string, string>, segs: seq<string>)
    ensures forall k :: k in Collect(m, segs) <==> k in m || exists j :: 0 <= j < |segs| && Key(segs[j]) == k
    decreases |segs|
  {
    if |segs| > 0 {
      var m' := m[Key(segs[0]) := Value(segs[0])];
      var tail := segs[1..];
      CollectKeys(m', tail);
      var r := Collect(m, segs);
      assert r == Collect(m', tail);
      forall k
        ensures k in r <==> k in m || exists j :: 0 <= j < |segs| && Key(segs[j]) == k
      {
        if k == Key(segs[0]) {
          assert k in m';
        } else if k in r && k !in m {
          var j' :| 0 <= j' < |tail| && Key(tail[j']) == k;
          assert tail[j'] == segs[j' + 1];
        }
        if exists j :: 0 <= j < |segs| && Key(segs[j]) == k {
          var j :| 0 <= j < |segs| && Key(segs[j]) == k;
          if j > 0 {
            assert tail[j - 1] == segs[j];
          }
        }
      }
    }
  }

  /** For every key that occurs in a piece, the loop keeps the value of its last piece. */
  lemma {:induction false} CollectLastWins(m: map<string, string>, segs: seq<string>, j: int)
    requires LastWithKey(segs, j)
    ensures Key(segs[j]) in Collect(m, segs) && Collect(m, segs)[Key(segs[j])] == Value(segs[j])
    decreases |segs|
  {
    var m' := m[Key(segs[0]) := Value(segs[0])];
    var tail := segs[1..];
    if j == 0 {
      forall j' | 0 <= j' < |tail| ensures Key(tail[j']) != Key(segs[0]) {
        assert tail[j'] == segs[j' + 1];
      }
      CollectKeepsOthers(m', tail, Key(segs[0]));
    } else {
      assert tail[j - 1] == segs[j];
      assert LastWithKey(tail, j - 1) by {
        forall j' | j - 1 < j' < |tail| ensures Key(tail[j']) != Key(tail[j - 1]) {
          assert tail[j'] == segs[j' + 1];
        }
      }
      CollectLastWins(m', tail, j - 1);
    }
  }

  /** A key of `m` that no piece has keeps its value. */
  lemma {:induction false} CollectKeepsOthers(m: map<string, string>, segs: seq<string>, k: string)
    requires k in m && forall j :: 0 <= j < |segs| ==> Key(segs[j]) != k
    ensures k in Collect(m, segs) && Collect(m, segs)[k] == m[k]
    decreases |segs|
  {
    if |segs| > 0 {
      var tail := segs[1..];
      assert Key(segs[0]) != k;
      forall j | 0 <= j < |tail| ensures Key(tail[j]) != k {
        assert tail[j] == segs[j + 1];
      }
      CollectKeepsOthers(m[Key(segs[0]) := Value(segs[0])], tail, k);
    }
  }

  /**
    `extractParameters`: an empty map for a `null` or empty argument string; otherwise
    each '|'-separated piece maps its key to its value, and for a repeated key the last
    piece wins.
  */
  function ExtractParameters(args: Option<string>): (r: map<string, string>)
    ensures args.None? || |args.value| < 1 ==> r == map[]
    ensures args.Some? && |args.value| >= 1 ==>
      var segs := Split(args.value);
      && (forall k :: k in r <==> exists j :: 0 <= j < |segs| && Key(segs[j]) == k)
      && (forall j :: LastWithKey(segs, j) ==> r[Key(segs[j])] == Value(segs[j]))
  {
    if args.None? || |args.value| < 1 then map[]
    else
      var segs := Split(args.value);
      CollectKeys(map[], segs);
      assert forall j :: LastWithKey(segs, j) ==> Collect(map[], segs)[Key(segs[j])] == Value(segs[j]) by {
        forall j | LastWithKey(segs, j) ensures Collect(map[], segs)[Key(segs[j])] == Value(segs[j]) {
          CollectLastWins(map[], segs, j);
        }
      }
      Collect(map[], segs)
  }

  /** No key holds a '|' or an '=', and no value holds a '|'. */
  lemma ParametersAreSeparatorFree(args: Option<string>)
    ensures var r := ExtractParameters(args);
      forall k :: k in r ==> '|' !in k && '=' !in k && '|' !in r[k]
  {
    if args.Some? && |args.value| >= 1 {
      CollectSeparatorFree(map[], Split(args.value));
    }
  }

  lemma {:induction false} CollectSeparatorFree(m: map<string, string>, segs: seq<string>)
    requires forall k :: k in m ==> '|' !in k && '=' !in k && '|' !in m[k]
    requires forall j :: 0 <= j < |segs| ==> '|' !in segs[j]
    ensures var r := Collect(m, segs);
      forall k :: k in r ==> '|' !in k && '=' !in k && '|' !in r[k]
    decreases |segs|
  {
    if |segs| > 0 {
      SeparatorFreePiece(segs[0]);
      var tail := segs[1..];
      forall j | 0 <= j < |tail| ensures '|' !in tail[j] {
        assert tail[j] == segs[j + 1];
      }
      CollectSeparatorFree(m[Key(segs[0]) := Value(segs[0])], tail);
    }
  }

  lemma SeparatorFreePiece(seg: string)
    requires '|' !in seg
    ensures '|' !in Key(seg) && '|' !in Value(seg)
  {
    if '=' in seg {
      assert seg == Key(seg) + "=" + Value(seg);
      assert forall i :: 0 <= i < |Value(seg)| ==> Value(seg)[i] == seg[|Key(seg)| + 1 + i];
    }
  }

  // ---------------------------------------------------------------------------
  // The round trip

  /** One `key=value` parameter. */
  datatype Param = Param(key: string, value: string)

  /** The text of a parameter. */
  function Entry(p: Param): string {
    p.key + "=" + p.value
  }

  function Entries(ps: seq<Param>): (r: seq<string>)
    ensures |r| == |ps| && forall i :: 0 <= i < |ps| ==> r[i] == Entry(ps[i])
  {
    seq(|ps|, i requires 0 <= i < |ps| => Entry(ps[i]))
  }

  /** The parameters as a map, a later parameter replacing an earlier one with the same key. */
  function ToMap(ps: seq<Param>): map<string, string>
    decreases |ps|
  {
    if |ps| == 0 then map[]
    else ToMap(ps[..|ps| - 1])[ps[|ps| - 1].key := ps[|ps| - 1].value]
  }

  /** A parameter that can be written as `key=value` between '|'s and read back. */
  predicate Writable(p: Param) {
    '|' !in p.key && '=' !in p.key && '|' !in p.value
  }

  lemma {:induction false} SegmentsOfJoin(segs: seq<string>)
    requires |segs| >= 1 && forall k :: 0 <= k < |segs| ==> '|' !in segs[k]
    ensures Segments(Join(segs)) == segs
    decreases |segs|
  {
    var s := Join(segs);
    if |segs| == 1 {
      assert IndexOfChar(s, '|', 0).None?;
    } else {
      var head := segs[0];
      var tail := segs[1..];
      assert s == head + "|" + Join(tail);
      assert s[|head|] == '|';
      assert forall k :: 0 <= k < |head| ==> s[k] == head[k];
      assert IndexOfChar(s, '|', 0) == Some(|head|);
      assert s[..|head|] == head && s[|head| + 1..] == Join(tail);
      SegmentsOfJoin(tail);
      assert [head] + tail == segs;
    }
  }

  lemma KeyValueOfEntry(p: Param)
    requires '=' !in p.key
    ensures Key(Entry(p)) == p.key && Value(Entry(p)) == p.value
  {
    var e := Entry(p);
    assert e[|p.key|] == '=';
    assert forall k :: 0 <= k < |p.key| ==> e[k] == p.key[k];
    assert IndexOfChar(e, '=', 0) == Some(|p.key|);
    assert e[..|p.key|] == p.key && e[|p.key| + 1..] == p.value;
  }

  lemma {:induction false} CollectSnoc(m: map<string, string>, segs: seq<string>, last: string)
    ensures Collect(m, segs + [last]) == Collect(m, segs)[Key(last) := Value(last)]
    decreases |segs|
  {
    if |segs| == 0 {
      assert segs + [last] == [last];
    } else {
      assert (segs + [last])[0] == segs[0];
      assert (segs + [last])[1..] == segs[1..] + [last];
      CollectSnoc(m[Key(segs[0]) := Value(segs[0])], segs[1..], last);
    }
  }

  lemma {:induction false} CollectEntries(ps: seq<Param>)
    requires forall i :: 0 <= i < |ps| ==> '=' !in ps[i].key
    ensures Collect(map[], Entries(ps)) == ToMap(ps)
    decreases |ps|
  {
    if |ps| > 0 {
      var init := ps[..|ps| - 1];
      var p := ps[|ps| - 1];
      assert Entries(ps) == Entries(init) + [Entry(p)];
      CollectEntries(init);
      CollectSnoc(map[], Entries(init), Entry(p));
      KeyValueOfEntry(p);
    }
  }

  /** Splitting the written parameters gives back their texts. */
  lemma SplitOfEntries(ps: seq<Param>)
    requires |ps| > 0 && forall i :: 0 <= i < |ps| ==> Writable(ps[i])
    ensures |Join(Entries(ps))| >= 1
    ensures Split(Join(Entries(ps))) == Entries(ps)
  {
    var es := Entries(ps);
    var s := Join(es);
    assert forall k :: 0 <= k < |es| ==> '|' !in es[k] by {
      forall k | 0 <= k < |es| ensures '|' !in es[k] {
        assert es[k] == ps[k].key + "=" + ps[k].value;
      }
    }
    assert |es[|es| - 1]| > 0;
    SegmentsOfJoin(es);
    if '|' !in s {
      assert |es| == 1;
      assert Split(s) == [s] == es;
    } else {
      assert Split(s) == DropTrailingEmpty(es) == es;
    }
    assert |s| >= |es[0]| > 0 by {
      if |es| > 1 {
        assert s == es[0] + "|" + Join(es[1..]);
      }
    }
  }

  /**
    Round trip: writing parameters as `k=v|k2=v2|...` and parsing the text back gives the
    map of the parameters, the last one winning for a repeated key.
  */
  lemma ExtractParametersOfJoin(ps: seq<Param>)
    requires forall i :: 0 <= i < |ps| ==> Writable(ps[i])
    ensures ExtractParameters(Some(Join(Entries(ps)))) == ToMap(ps)
  {
    if |ps| > 0 {
      SplitOfEntries(ps);
      CollectEntries(ps);
    }
  }

  /** A trailing '|' adds no parameter. */
  lemma TrailingSeparatorIsDropped()
    ensures ExtractParameters(Some("a=1|")) == map["a" := "1"]
  {
    assert Segments("a=1|") == ["a=1", ""] by {
      assert IndexOfChar("a=1|", '|', 0) == Some(3);
      assert "a=1|"[..3] == "a=1" && "a=1|"[4..] == "";
    }
    assert DropTrailingEmpty(["a=1", ""]) == ["a=1"] by {
      assert ["a=1", ""][..1] == ["a=1"];
    }
    KeyValueOfEntry(Param("a", "1"));
    assert Entry(Param("a", "1")) == "a=1";
  }

  /** A value may hold '=': only the first '=' separates. */
  lemma ValueMayHoldEquals()
    ensures ExtractParameters(Some("k=x=y")) == map["k" := "x=y"]
  {
    KeyValueOfEntry(Param("k", "x=y"));
    assert Entry(Param("k", "x=y")) == "k=x=y";
    assert '|' !in "k=x=y";
  }

  /** A piece without '=' maps to the empty value. */
  lemma BareKeyMapsToEmpty()
    ensures ExtractParameters(Some("flag")) == map["flag" := ""]
  {
    assert IndexOfChar("flag", '=', 0) == None by {
      assert forall i :: 0 <= i < 4 ==> "flag"[i] != '=';
    }
    assert '|' !in "flag";
  }

  /** The value runs from just after the first occurrence of the key to the next '|'. */
  lemma ExtractConfigExample()
    ensures ExtractConfig(Some("a=1|b=2|c"), "b=") == Some("2")
  {
    var a := "a=1|b=2|c";
    assert IndexOf(a, "b=") == Some(4) by {
      assert a[4..6] == "b=";
      assert OccursAt(a, "b=", 4);
      var k := IndexOf(a, "b=").value;
      assert forall i :: 0 <= i < 4 ==> a[i] != 'b';
      assert a[k..k + 2][0] == a[k];
    }
    assert IndexOfChar(a, '|', 6) == Some(7);
    assert a[6..7] == "2";
  }
}
