/** The pieces of Rust's `str` and `HashMap` behaviour that the request
    parser relies on: `char::is_whitespace`, `trim`, `split_whitespace`,
    `find`, `split`, `splitn(2, _)`, and repeated `HashMap::insert`. */
module Text {
  import opened Wrappers

  /** The Unicode White_Space property, which `char::is_whitespace` tests. */
  predicate IsWhitespace(c: char) {
    || c == ' '
    || ('\t' <= c <= '\r')
    || c == '\U{0085}' || c == '\U{00A0}' || c == '\U{1680}'
    || ('\U{2000}' <= c <= '\U{200A}')
    || c == '\U{2028}' || c == '\U{2029}' || c == '\U{202F}' || c == '\U{205F}' || c == '\U{3000}'
  }

  predicate AllWhitespace(s: string) {
    forall i :: 0 <= i < |s| ==> IsWhitespace(s[i])
  }

  predicate NoWhitespace(s: string) {
    forall i :: 0 <= i < |s| ==> !IsWhitespace(s[i])
  }

  /** `str::trim_start`: `s` without its leading whitespace. */
  function TrimStart(s: string): (r: string)
    ensures |r| <= |s|
  {
    if s != [] && IsWhitespace(s[0]) then TrimStart(s[1..]) else s
  }

  /** What `trim_start` leaves is a suffix that does not start with
      whitespace, and what it cuts off is all whitespace. */
  lemma {:induction false} TrimStartSpec(s: string)
    ensures var r := TrimStart(s);
      && r == s[|s| - |r|..]
      && AllWhitespace(s[..|s| - |r|])
      && (r == [] || !IsWhitespace(r[0]))
    decreases |s|
  {
    if s != [] && IsWhitespace(s[0]) {
      TrimStartSpec(s[1..]);
      var r := TrimStart(s[1..]);
      assert s[1..][|s| - 1 - |r|..] == s[|s| - |r|..];
      assert s[..|s| - |r|] == [s[0]] + s[1..][..|s| - 1 - |r|];
    } else {
      assert s[..0] == [];
    }
  }

  /** `str::trim_end`: `s` without its trailing whitespace. */
  function TrimEnd(s: string): (r: string)
    ensures |r| <= |s|
  {
    if s != [] && IsWhitespace(s[|s| - 1]) then TrimEnd(s[..|s| - 1]) else s
  }

  /** What `trim_end` leaves is a prefix that does not end with
      whitespace, and what it cuts off is all whitespace. */
  lemma {:induction false} TrimEndSpec(s: string)
    ensures var r := TrimEnd(s);
      && r == s[..|r|]
      && AllWhitespace(s[|r|..])
      && (r == [] || !IsWhitespace(r[|r| - 1]))
    decreases |s|
  {
    if s != [] && IsWhitespace(s[|s| - 1]) {
      var init := s[..|s| - 1];
      TrimEndSpec(init);
      var r := TrimEnd(init);
      assert init[..|r|] == s[..|r|];
      assert s[|r|..] == init[|r|..] + [s[|s| - 1]];
    } else {
      assert s[..|s|] == s;
    }
  }

  /** `str::trim`. */
  function Trim(s: string): string {
    TrimEnd(TrimStart(s))
  }

  /** `trim` removes whitespace from both ends and nothing else: the
      result is a slice of `s` that neither begins nor ends with
      whitespace, and everything cut off is whitespace. */
  lemma TrimIsSlice(s: string) returns (i: nat, j: nat)
    ensures i <= j <= |s| && Trim(s) == s[i..j]
    ensures AllWhitespace(s[..i]) && AllWhitespace(s[j..])
    ensures Trim(s) == [] || (!IsWhitespace(Trim(s)[0]) && !IsWhitespace(Trim(s)[|Trim(s)| - 1]))
  {
    var t := TrimStart(s);
    TrimStartSpec(s);
    TrimEndSpec(t);
    i := |s| - |t|;
    j := i + |TrimEnd(t)|;
    assert s[i..j] == t[..|TrimEnd(t)|];
    assert s[j..] == t[|TrimEnd(t)|..];
    if TrimEnd(t) != [] {
      assert TrimEnd(t)[0] == t[0];
    }
  }

  /** A string trims to nothing exactly when it is all whitespace. */
  lemma TrimEmptyIff(s: string)
    ensures Trim(s) == [] <==> AllWhitespace(s)
  {
    var i, j := TrimIsSlice(s);
    if Trim(s) == [] {
      assert i == j;
      forall k | 0 <= k < |s| ensures IsWhitespace(s[k]) {
        if k < i { assert s[k] == s[..i][k]; } else { assert s[k] == s[j..][k - j]; }
      }
    }
  }

  /** A string that neither starts nor ends with whitespace trims to itself. */
  lemma TrimOfTrimmed(s: string)
    requires s == [] || (!IsWhitespace(s[0]) && !IsWhitespace(s[|s| - 1]))
    ensures Trim(s) == s
  {
  }

  lemma {:induction false} TrimStartAfter(lead: string, r: string)
    requires AllWhitespace(lead) && (r == [] || !IsWhitespace(r[0]))
    ensures TrimStart(lead + r) == r
    decreases |lead|
  {
    if lead == [] {
      assert lead + r == r;
    } else {
      assert (lead + r)[1..] == lead[1..] + r;
      TrimStartAfter(lead[1..], r);
    }
  }

  lemma {:induction false} TrimEndBefore(r: string, trail: string)
    requires AllWhitespace(trail) && (r == [] || !IsWhitespace(r[|r| - 1]))
    ensures TrimEnd(r + trail) == r
    decreases |trail|
  {
    if trail == [] {
      assert r + trail == r;
    } else {
      var n := |trail| - 1;
      assert (r + trail)[..|r + trail| - 1] == r + trail[..n];
      TrimEndBefore(r, trail[..n]);
    }
  }

  /** Whitespace around a value that neither starts nor ends with
      whitespace is exactly what `trim` removes. */
  lemma TrimPadded(lead: string, v: string, trail: string)
    requires AllWhitespace(lead) && AllWhitespace(trail)
    requires v == [] || (!IsWhitespace(v[0]) && !IsWhitespace(v[|v| - 1]))
    ensures Trim(lead + v + trail) == v
  {
    if v == [] {
      assert lead + v + trail == (lead + trail) + [];
      TrimStartAfter(lead + trail, []);
    } else {
      assert lead + v + trail == lead + (v + trail);
      TrimStartAfter(lead, v + trail);
      TrimEndBefore(v, trail);
    }
  }

  /** The length of the run of non-whitespace characters that starts `s`. */
  function WordLength(s: string): (n: nat)
    ensures n <= |s|
  {
    if s == [] || IsWhitespace(s[0]) then 0 else 1 + WordLength(s[1..])
  }

  /** The run is whitespace-free and ends at whitespace or at the end. */
  lemma {:induction false} WordLengthSpec(s: string)
    ensures var n := WordLength(s);
      NoWhitespace(s[..n]) && (n == |s| || IsWhitespace(s[n]))
    decreases |s|
  {
    if s != [] && !IsWhitespace(s[0]) {
      WordLengthSpec(s[1..]);
      var n := WordLength(s);
      assert s[..n] == [s[0]] + s[1..][..n - 1];
    }
  }

  /** `str::split_whitespace`, collected: the maximal non-empty runs of
      non-whitespace characters, in order. */
  function Tokens(s: string): seq<string>
    decreases |s|
  {
    var t := TrimStart(s);
    if t == [] then []
    else
      TrimStartSpec(s);
      var n := WordLength(t);
      [t[..n]] + Tokens(t[n..])
  }

  /** Every token is a non-empty run of non-whitespace characters. */
  lemma {:induction false} TokensAreWords(s: string)
    ensures var ts := Tokens(s);
      forall k :: 0 <= k < |ts| ==> ts[k] != [] && NoWhitespace(ts[k])
    decreases |s|
  {
    var t := TrimStart(s);
    if t != [] {
      TrimStartSpec(s);
      var n := WordLength(t);
      WordLengthSpec(t);
      var w := t[..n];
      assert w[0] == t[0];
      TokensAreWords(t[n..]);
      var ts := Tokens(s);
      assert ts == [w] + Tokens(t[n..]);
      forall k | 0 <= k < |ts| ensures ts[k] != [] && NoWhitespace(ts[k]) {
        if k > 0 { assert ts[k] == Tokens(t[n..])[k - 1]; }
      }
    }
  }

  /** `split_whitespace` yields nothing exactly when the line is empty or
      all whitespace. */
  lemma TokensEmptyIff(s: string)
    ensures Tokens(s) == [] <==> AllWhitespace(s)
  {
    var t := TrimStart(s);
    TrimStartSpec(s);
    if t == [] {
      assert s[..|s|] == s;
    } else {
      assert s[|s| - |t|] == t[0];
    }
  }

  /** Leading whitespace, a word, and then either nothing or whitespace:
      the word is the next token and splitting carries on after it. */
  lemma {:induction false} TokensCons(lead: string, w: string, rest: string)
    requires AllWhitespace(lead) && w != [] && NoWhitespace(w)
    requires rest == [] || IsWhitespace(rest[0])
    ensures Tokens(lead + w + rest) == [w] + Tokens(rest)
    decreases |lead|
  {
    var s := lead + w + rest;
    if lead == [] {
      assert s == w + rest;
      TokensWordFirst(w, rest);
    } else {
      assert s[0] == lead[0];
      assert s[1..] == lead[1..] + w + rest;
      TokensCons(lead[1..], w, rest);
    }
  }

  /** A leading space does not change the tokens. */
  lemma TokensSkipSpace(x: string)
    ensures Tokens(" " + x) == Tokens(x)
  {
    var s := " " + x;
    assert s[0] == ' ' && s[1..] == x;
    assert TrimStart(s) == TrimStart(x);
  }

  /** A word at the very start is the first token. */
  lemma TokensWordFirst(w: string, rest: string)
    requires w != [] && NoWhitespace(w)
    requires rest == [] || IsWhitespace(rest[0])
    ensures Tokens(w + rest) == [w] + Tokens(rest)
  {
    var s := w + rest;
    assert !IsWhitespace(s[0]);
    assert TrimStart(s) == s;
    WordLengthOf(w, rest);
    assert s[..|w|] == w && s[|w|..] == rest;
  }

  lemma {:induction false} WordLengthOf(w: string, rest: string)
    requires NoWhitespace(w)
    requires rest == [] || IsWhitespace(rest[0])
    ensures WordLength(w + rest) == |w|
    decreases |w|
  {
    if w == [] {
      assert w + rest == rest;
    } else {
      assert (w + rest)[0] == w[0];
      assert (w + rest)[1..] == w[1..] + rest;
      WordLengthOf(w[1..], rest);
    }
  }

  /** `str::find` for a character: the index of its first occurrence. */
  function Find(s: string, c: char): (r: Option<nat>)
    ensures r.Some? ==> r.value < |s|
  {
    if s == [] then None
    else if s[0] == c then Some(0)
    else match Find(s[1..], c)
      case None => None
      case Some(i) => Some(i + 1)
  }

  /** `find` fails exactly when `c` does not occur, and otherwise points at
      an occurrence with none before it. */
  lemma {:induction false} FindSpec(s: string, c: char)
    ensures Find(s, c).None? <==> c !in s
    ensures Find(s, c).Some? ==> s[Find(s, c).value] == c && c !in s[..Find(s, c).value]
    decreases |s|
  {
    if s != [] && s[0] != c {
      FindSpec(s[1..], c);
      assert s == [s[0]] + s[1..];
      match Find(s[1..], c)
      case None =>
      case Some(i) =>
        assert s[..i + 1] == [s[0]] + s[1..][..i];
    }
  }

  /** An occurrence with none before it is what `find` returns. */
  lemma FindAt(s: string, c: char, i: nat)
    requires i < |s| && s[i] == c && c !in s[..i]
    ensures Find(s, c) == Some(i)
  {
    FindSpec(s, c);
    var j := Find(s, c).value;
  }

  /** `str::rfind` for a character: the index of its last occurrence. */
  function RFind(s: string, c: char): (r: Option<nat>)
    ensures r.Some? ==> r.value < |s|
  {
    if s == [] then None
    else if s[|s| - 1] == c then Some(|s| - 1)
    else RFind(s[..|s| - 1], c)
  }

  /** `rfind` fails exactly when `c` does not occur, and otherwise points
      at an occurrence with none after it. */
  lemma {:induction false} RFindSpec(s: string, c: char)
    ensures RFind(s, c).None? <==> c !in s
    ensures RFind(s, c).Some? ==> s[RFind(s, c).value] == c && c !in s[RFind(s, c).value + 1..]
    decreases |s|
  {
    if s != [] && s[|s| - 1] != c {
      var init := s[..|s| - 1];
      RFindSpec(init, c);
      assert s == init + [s[|s| - 1]];
      var r := RFind(init, c);
      if r.Some? {
        assert s[r.value + 1..] == init[r.value + 1..] + [s[|s| - 1]];
      }
    }
  }

  /** The last occurrence is unique: an occurrence with no later one is it. */
  lemma RFindAt(s: string, c: char, i: nat)
    requires i < |s| && s[i] == c && c !in s[i + 1..]
    ensures RFind(s, c) == Some(i)
  {
    RFindSpec(s, c);
    var j := RFind(s, c).value;
  }

  /** `splitn(2, c)` read as a key/value pair: the text before the first
      `c` and the text after it, or `None` when there is no `c`. */
  function SplitOnce(s: string, c: char): (r: Option<(string, string)>)
    ensures r.Some? ==> |r.value.1| < |s|
  {
    match Find(s, c)
    case None => None
    case Some(i) => Some((s[..i], s[i + 1..]))
  }

  /** `splitn(2, c)` fails exactly when `c` does not occur; otherwise the
      two halves put back together around `c` give `s`, and the first has
      no `c`. */
  lemma SplitOnceSpec(s: string, c: char)
    ensures SplitOnce(s, c).None? <==> c !in s
    ensures SplitOnce(s, c).Some? ==>
      s == SplitOnce(s, c).value.0 + [c] + SplitOnce(s, c).value.1 && c !in SplitOnce(s, c).value.0
  {
    FindSpec(s, c);
    if Find(s, c).Some? {
      var i := Find(s, c).value;
      assert s == s[..i] + [c] + s[i + 1..];
    }
  }

  /** The first occurrence of `c` is where `SplitOnce` splits, whatever
      follows it: the value keeps any later `c`. */
  lemma SplitOnceAtFirst(k: string, c: char, v: string)
    requires c !in k
    ensures SplitOnce(k + [c] + v, c) == Some((k, v))
  {
    var s := k + [c] + v;
    assert s[|k|] == c;
    assert s[..|k|] == k && s[|k| + 1..] == v;
    FindAt(s, c, |k|);
  }

  /** `str::split(c)` collected: the pieces between occurrences of `c`;
      the empty string gives one empty piece. */
  function Split(s: string, c: char): (ps: seq<string>)
    ensures |ps| >= 1
    decreases |s|
  {
    match SplitOnce(s, c)
    case None => [s]
    case Some((before, after)) => [before] + Split(after, c)
  }

  /** No piece contains the separator. */
  lemma {:induction false} SplitSpec(s: string, c: char)
    ensures forall k :: 0 <= k < |Split(s, c)| ==> c !in Split(s, c)[k]
    decreases |s|
  {
    SplitOnceSpec(s, c);
    match SplitOnce(s, c)
    case None =>
    case Some((before, after)) =>
      SplitSpec(after, c);
      var ps := Split(s, c);
      forall k | 0 <= k < |ps| ensures c !in ps[k] {
        if k > 0 { assert ps[k] == Split(after, c)[k - 1]; }
      }
  }

  /** The pieces joined back with `c`. */
  function Join(ps: seq<string>, c: char): string
    requires |ps| >= 1
  {
    if |ps| == 1 then ps[0] else ps[0] + [c] + Join(ps[1..], c)
  }

  /** Splitting loses nothing: joining the pieces gives back the text. */
  lemma {:induction false} JoinSplit(s: string, c: char)
    ensures Join(Split(s, c), c) == s
    decreases |s|
  {
    SplitOnceSpec(s, c);
    match SplitOnce(s, c)
    case None =>
    case Some((before, after)) =>
      JoinSplit(after, c);
      assert Split(s, c)[1..] == Split(after, c);
  }

  /** Splitting a join of separator-free pieces gives the pieces back. */
  lemma {:induction false} SplitJoin(ps: seq<string>, c: char)
    requires |ps| >= 1 && forall k :: 0 <= k < |ps| ==> c !in ps[k]
    ensures Split(Join(ps, c), c) == ps
  {
    if |ps| > 1 {
      var tail := Join(ps[1..], c);
      assert Join(ps, c) == ps[0] + [c] + tail;
      SplitOnceAtFirst(ps[0], c, tail);
      assert Split(Join(ps, c), c) == [ps[0]] + Split(tail, c);
      SplitJoin(ps[1..], c);
      assert ps == [ps[0]] + ps[1..];
    } else {
      assert Join(ps, c) == ps[0];
      SplitOnceSpec(ps[0], c);
    }
  }

  /** The map left by inserting the pairs into an empty `HashMap` one by
      one, in order. */
  function InsertAll<K, V>(kvs: seq<(K, V)>): map<K, V>
  {
    if kvs == [] then map[]
    else InsertAll(kvs[..|kvs| - 1])[kvs[|kvs| - 1].0 := kvs[|kvs| - 1].1]
  }

  /** The keys are exactly the keys of the pairs, and a repeated key keeps
      the value of its last pair. */
  lemma {:induction false} InsertAllLastWins<K, V>(kvs: seq<(K, V)>, k: K)
    ensures k in InsertAll(kvs) <==> exists i :: 0 <= i < |kvs| && kvs[i].0 == k
    ensures forall i :: 0 <= i < |kvs| && kvs[i].0 == k && (forall j :: i < j < |kvs| ==> kvs[j].0 != k)
              ==> InsertAll(kvs)[k] == kvs[i].1
  {
    if kvs != [] {
      var init := kvs[..|kvs| - 1];
      InsertAllLastWins(init, k);
      if k in InsertAll(init) && k != kvs[|kvs| - 1].0 {
        var i :| 0 <= i < |init| && init[i].0 == k;
        assert kvs[i].0 == k;
      }
      if exists i :: 0 <= i < |kvs| && kvs[i].0 == k {
        var i :| 0 <= i < |kvs| && kvs[i].0 == k;
        if i < |init| { assert init[i].0 == k; }
      }
      forall i | 0 <= i < |kvs| && kvs[i].0 == k && (forall j :: i < j < |kvs| ==> kvs[j].0 != k)
        ensures InsertAll(kvs)[k] == kvs[i].1
      {
        if i < |init| {
          assert init[i] == kvs[i];
          assert kvs[|kvs| - 1].0 != k;
          assert forall j :: i < j < |init| ==> init[j] == kvs[j];
        }
      }
    }
  }
}
