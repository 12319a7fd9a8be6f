/** Python's argument-less `str.split()`, used by `build_graph` to break the
    `sources` cell of a metadata record into table names. */
module Tokens {

  /** The characters for which Python's `str.isspace()` holds; `str.split()`
      with no separator splits on runs of exactly these. */
  predicate IsWhitespace(c: char) {
    var k := c as int;
    || 0x09 <= k <= 0x0D
    || 0x1C <= k <= 0x20
    || k == 0x85 || k == 0xA0 || k == 0x1680
    || 0x2000 <= k <= 0x200A
    || k == 0x2028 || k == 0x2029 || k == 0x202F || k == 0x205F || k == 0x3000
  }

  /** A table name as `str.split()` yields it: non-empty, without whitespace. */
  predicate IsToken(w: string) {
    |w| > 0 && forall i :: 0 <= i < |w| ==> !IsWhitespace(w[i])
  }

  predicate AllWhitespace(s: string) {
    forall i :: 0 <= i < |s| ==> IsWhitespace(s[i])
  }

  /** Length of the run of whitespace that starts `s`. */
  function LeadingSpace(s: string): (n: nat)
    ensures n <= |s|
    ensures AllWhitespace(s[..n])
    ensures n < |s| ==> !IsWhitespace(s[n])
  {
    if s == [] || !IsWhitespace(s[0]) then 0 else 1 + LeadingSpace(s[1..])
  }

  /** Length of the run of non-whitespace characters that starts `s`. */
  function TokenLength(s: string): (n: nat)
    ensures n <= |s|
    ensures forall i :: 0 <= i < n ==> !IsWhitespace(s[i])
    ensures n < |s| ==> IsWhitespace(s[n])
  {
    if s == [] || IsWhitespace(s[0]) then 0 else 1 + TokenLength(s[1..])
  }

  /** `s.split()`: the maximal whitespace-free runs of `s`, left to right. */
  function Split(s: string): (r: seq<string>)
    ensures forall i :: 0 <= i < |r| ==> IsToken(r[i])
    decreases |s|
  {
    var k := LeadingSpace(s);
    if k == |s| then []
    else
      var rest := s[k..];
      var n := TokenLength(rest);
      [rest[..n]] + Split(rest[n..])
  }

  /** The non-whitespace characters of `s`, in order. */
  function NonSpace(s: string): string {
    if s == [] then []
    else (if IsWhitespace(s[0]) then [] else [s[0]]) + NonSpace(s[1..])
  }

  function Concat(ws: seq<string>): string {
    if ws == [] then [] else ws[0] + Concat(ws[1..])
  }

  /** Tokens written out with one space between neighbours. */
  function JoinSpace(ws: seq<string>): string {
    if ws == [] then []
    else if |ws| == 1 then ws[0]
    else ws[0] + " " + JoinSpace(ws[1..])
  }

  /** A cell that is empty or all whitespace yields no table name, and any
      other cell yields at least one. */
  lemma {:induction false} SplitEmptyIff(s: string)
    ensures Split(s) == [] <==> AllWhitespace(s)
  {
    var k := LeadingSpace(s);
    if k == |s| {
      assert s[..k] == s;
    } else {
      assert !IsWhitespace(s[k]);
    }
  }

  lemma {:induction false} NonSpaceAppend(a: string, b: string)
    ensures NonSpace(a + b) == NonSpace(a) + NonSpace(b)
    decreases |a|
  {
    if a == [] {
      assert a + b == b;
    } else {
      assert (a + b)[1..] == a[1..] + b;
      NonSpaceAppend(a[1..], b);
    }
  }

  lemma {:induction false} NonSpaceOfSpace(s: string)
    requires AllWhitespace(s)
    ensures NonSpace(s) == []
    decreases |s|
  {
    if s != [] {
      NonSpaceOfSpace(s[1..]);
    }
  }

  lemma {:induction false} NonSpaceOfToken(s: string)
    requires forall i :: 0 <= i < |s| ==> !IsWhitespace(s[i])
    ensures NonSpace(s) == s
    decreases |s|
  {
    if s != [] {
      NonSpaceOfToken(s[1..]);
      assert s == [s[0]] + s[1..];
    }
  }

  /** Splitting loses exactly the whitespace: the tokens, concatenated, are
      the non-whitespace characters of the cell in their original order. */
  lemma {:induction false} SplitKeepsNonSpace(s: string)
    ensures Concat(Split(s)) == NonSpace(s)
    decreases |s|
  {
    var k := LeadingSpace(s);
    assert NonSpace(s) == NonSpace(s[k..]) by {
      assert s == s[..k] + s[k..];
      NonSpaceAppend(s[..k], s[k..]);
      NonSpaceOfSpace(s[..k]);
    }
    if k < |s| {
      var rest := s[k..];
      var n := TokenLength(rest);
      assert NonSpace(rest) == rest[..n] + NonSpace(rest[n..]) by {
        assert rest == rest[..n] + rest[n..];
        NonSpaceAppend(rest[..n], rest[n..]);
        NonSpaceOfToken(rest[..n]);
      }
      SplitKeepsNonSpace(rest[n..]);
      assert Concat(Split(s)) == rest[..n] + Concat(Split(rest[n..])) by {
        var ws := [rest[..n]] + Split(rest[n..]);
        assert Split(s) == ws;
        assert ws[1..] == Split(rest[n..]);
      }
    }
  }

  /** Leading whitespace does not change the tokens. */
  lemma {:induction false} SplitSkipsSpace(c: char, s: string)
    requires IsWhitespace(c)
    ensures Split([c] + s) == Split(s)
  {
    var t := [c] + s;
    assert t[1..] == s;
    assert LeadingSpace(t) == 1 + LeadingSpace(s);
    assert t[LeadingSpace(t)..] == s[LeadingSpace(s)..];
  }

  lemma {:induction false} TokenLengthOfToken(w: string, s: string)
    requires forall i :: 0 <= i < |w| ==> !IsWhitespace(w[i])
    requires s == [] || IsWhitespace(s[0])
    ensures TokenLength(w + s) == |w|
    decreases |w|
  {
    if w == [] {
      assert w + s == s;
    } else {
      assert (w + s)[1..] == w[1..] + s;
      TokenLengthOfToken(w[1..], s);
    }
  }

  /** A cell laid out as `seps[0] + ws[0] + seps[1] + ... + ws[n-1] + seps[n]`. */
  function Interleave(ws: seq<string>, seps: seq<string>): string
    requires |seps| == |ws| + 1
    decreases |ws|
  {
    if ws == [] then seps[0] else seps[0] + ws[0] + Interleave(ws[1..], seps[1..])
  }

  /** Separators for `n` names: whitespace only, possibly empty at either
      end, and at least one character between two names. */
  predicate Separators(n: nat, seps: seq<string>) {
    && |seps| == n + 1
    && (forall i :: 0 <= i < |seps| ==> AllWhitespace(seps[i]))
    && (forall i :: 0 < i < n ==> seps[i] != [])
  }

  /** Leading whitespace of any length does not change the names. */
  lemma {:induction false} SplitAfterSpace(p: string, s: string)
    requires AllWhitespace(p)
    ensures Split(p + s) == Split(s)
    decreases |p|
  {
    if p == [] {
      assert p + s == s;
    } else {
      assert p + s == [p[0]] + (p[1..] + s);
      SplitSkipsSpace(p[0], p[1..] + s);
      SplitAfterSpace(p[1..], s);
    }
  }

  /** A name followed by the end of the cell or by whitespace is split off
      whole. */
  lemma {:induction false} SplitTokenThen(w: string, rest: string)
    requires IsToken(w)
    requires rest == [] || IsWhitespace(rest[0])
    ensures Split(w + rest) == [w] + Split(rest)
  {
    var t := w + rest;
    assert t[0] == w[0];
    assert LeadingSpace(t) == 0;
    assert t[0..] == t;
    TokenLengthOfToken(w, rest);
    assert t[..|w|] == w;
    assert t[|w|..] == rest;
  }

  lemma InterleaveStart(ws: seq<string>, seps: seq<string>)
    requires Separators(|ws|, seps)
    requires ws == [] || seps[0] != []
    ensures var t := Interleave(ws, seps); t == [] || IsWhitespace(t[0])
  {
    if ws != [] {
      assert Interleave(ws, seps)[0] == seps[0][0];
    }
  }

  /** Round trip: names separated by any non-empty runs of whitespace, with
      any whitespace before and after, split back into exactly those names,
      in order. */
  lemma {:induction false} SplitInterleave(ws: seq<string>, seps: seq<string>)
    requires forall i :: 0 <= i < |ws| ==> IsToken(ws[i])
    requires Separators(|ws|, seps)
    ensures Split(Interleave(ws, seps)) == ws
    decreases |ws|
  {
    if ws == [] {
      SplitEmptyIff(seps[0]);
    } else {
      var rest := Interleave(ws[1..], seps[1..]);
      SeparatorsTail(|ws|, seps);
      assert Split(ws[0] + rest) == ws by {
        SplitInterleave(ws[1..], seps[1..]);
        InterleaveStart(ws[1..], seps[1..]);
        SplitTokenThen(ws[0], rest);
        assert ws == [ws[0]] + ws[1..];
      }
      assert Split(Interleave(ws, seps)) == Split(ws[0] + rest) by {
        ConcatAssoc(seps[0], ws[0], rest);
        SplitAfterSpace(seps[0], ws[0] + rest);
      }
    }
  }

  /** The separators of `JoinSpace` for `n` names, led by `first`: `first`,
      then single spaces, then nothing at the end. */
  function Spaced(first: string, n: nat): (seps: seq<string>)
    ensures |seps| == n + 1
    ensures n > 0 ==> seps[0] == first
    ensures seps[n] == []
    ensures forall i :: 0 < i < n ==> seps[i] == " "
    decreases n
  {
    if n == 0 then [[]] else [first] + Spaced(" ", n - 1)
  }

  lemma SpacedSeparators(n: nat)
    ensures Separators(n, Spaced([], n))
  {
    var seps := Spaced([], n);
    forall i | 0 <= i < |seps| ensures AllWhitespace(seps[i]) {
      assert seps[i] == [] || seps[i] == " ";
    }
  }

  /** `JoinSpace` is the interleaving with `Spaced` separators. */
  lemma {:induction false} JoinSpaceInterleave(first: string, ws: seq<string>)
    requires ws != [] || first == []
    ensures first + JoinSpace(ws) == Interleave(ws, Spaced(first, |ws|))
    decreases |ws|
  {
    if ws == [] {
    } else if |ws| == 1 {
      assert ws[1..] == [];
      assert Interleave(ws, Spaced(first, 1)) == first + ws[0] + [];
    } else {
      var rest := JoinSpace(ws[1..]);
      var seps := Spaced(first, |ws|);
      assert seps[1..] == Spaced(" ", |ws[1..]|);
      assert Interleave(ws, seps) == first + ws[0] + (" " + rest) by {
        JoinSpaceInterleave(" ", ws[1..]);
      }
      assert first + JoinSpace(ws) == first + ws[0] + (" " + rest) by {
        assert JoinSpace(ws) == ws[0] + " " + rest;
        ConcatAssoc(ws[0], " ", rest);
        ConcatAssoc(first, ws[0], " " + rest);
      }
    }
  }

  /** Round trip: table names written with single spaces between them are
      split back into exactly those names, in order; the special case of
      `SplitInterleave` with one space between names. */
  lemma SplitJoinSpace(ws: seq<string>)
    requires forall i :: 0 <= i < |ws| ==> IsToken(ws[i])
    ensures Split(JoinSpace(ws)) == ws
  {
    var seps := Spaced([], |ws|);
    JoinSpaceInterleave([], ws);
    assert [] + JoinSpace(ws) == JoinSpace(ws);
    SpacedSeparators(|ws|);
    SplitInterleave(ws, seps);
  }

  /** The whitespace runs around and between the names of `s`. */
  function Gaps(s: string): (r: seq<string>)
    ensures |r| == |Split(s)| + 1
    ensures r[0] == s[..LeadingSpace(s)]
    decreases |s|
  {
    var k := LeadingSpace(s);
    if k == |s| then [s]
    else
      var rest := s[k..];
      var n := TokenLength(rest);
      [s[..k]] + Gaps(rest[n..])
  }

  lemma SeparatorsTail(n: nat, seps: seq<string>)
    requires Separators(n, seps) && n > 0
    ensures Separators(n - 1, seps[1..])
  {
    forall i | 0 < i < n - 1 ensures seps[1..][i] != [] {
      assert seps[1..][i] == seps[i + 1];
    }
  }

  lemma ConcatAssoc(a: string, b: string, c: string)
    ensures a + b + c == a + (b + c)
  {
  }

  /** A string is its first `k` characters, the next `n`, and the rest. */
  lemma SliceThree(s: string, k: nat, n: nat)
    requires k + n <= |s|
    ensures s == s[..k] + s[k..][..n] + s[k..][n..]
  {
    assert s[k..] == s[k..][..n] + s[k..][n..];
    assert s == s[..k] + s[k..];
  }

  /** Every cell is its names laid out with the whitespace runs of `Gaps`. */
  lemma SplitGaps(s: string)
    ensures Separators(|Split(s)|, Gaps(s))
    ensures Interleave(Split(s), Gaps(s)) == s
  {
    GapsSeparate(s);
    GapsLayout(s);
  }

  lemma {:induction false} GapsLayout(s: string)
    ensures |Gaps(s)| == |Split(s)| + 1
    ensures Interleave(Split(s), Gaps(s)) == s
    decreases |s|
  {
    var k := LeadingSpace(s);
    if k == |s| {
      assert s[..k] == s;
    } else {
      var rest := s[k..];
      var n := TokenLength(rest);
      var tail := rest[n..];
      var ws := Split(s);
      var seps := Gaps(s);
      assert ws[0] == rest[..n] && ws[1..] == Split(tail) by {
        assert ws == [rest[..n]] + Split(tail);
      }
      assert seps[0] == s[..k] && seps[1..] == Gaps(tail) by {
        assert seps == [s[..k]] + Gaps(tail);
      }
      GapsLayout(tail);
      assert Interleave(ws, seps) == s[..k] + rest[..n] + tail;
      SliceThree(s, k, n);
    }
  }

  lemma {:induction false} GapsSeparate(s: string)
    ensures Separators(|Split(s)|, Gaps(s))
    decreases |s|
  {
    var k := LeadingSpace(s);
    if k == |s| {
      assert s[..k] == s;
    } else {
      var rest := s[k..];
      var tail := rest[TokenLength(rest)..];
      assert |Split(s)| == 1 + |Split(tail)|;
      assert Gaps(s) == [s[..k]] + Gaps(tail);
      GapsSeparate(tail);
      GapAfterToken(rest);
      SeparatorsCons(|Split(tail)|, s[..k], Gaps(tail));
    }
  }

  /** After a name, the next gap is non-empty when another name follows. */
  lemma GapAfterToken(rest: string)
    ensures var tail := rest[TokenLength(rest)..];
      Split(tail) != [] ==> Gaps(tail)[0] != []
  {
    var tail := rest[TokenLength(rest)..];
    if tail != [] {
      assert tail[0] == rest[TokenLength(rest)];
      assert LeadingSpace(tail) > 0;
    } else {
      assert LeadingSpace(tail) == |tail|;
    }
  }

  lemma SeparatorsCons(n: nat, first: string, seps: seq<string>)
    requires AllWhitespace(first) && Separators(n, seps)
    requires n > 0 ==> seps[0] != []
    ensures Separators(n + 1, [first] + seps)
  {
    var all := [first] + seps;
    forall i | 1 <= i < |all| ensures all[i] == seps[i - 1] {
    }
  }

  /** `s.split()` characterised: for any list of names, it is the split of
      `s` exactly when `s` is those names laid out with whitespace separators
      (non-empty between names). */
  lemma SplitIff(s: string, ws: seq<string>)
    requires forall i :: 0 <= i < |ws| ==> IsToken(ws[i])
    ensures Split(s) == ws <==> exists seps :: Separators(|ws|, seps) && Interleave(ws, seps) == s
  {
    if Split(s) == ws {
      SplitGaps(s);
      assert Separators(|ws|, Gaps(s)) && Interleave(ws, Gaps(s)) == s;
    }
    if seps :| Separators(|ws|, seps) && Interleave(ws, seps) == s {
      SplitInterleave(ws, seps);
    }
  }
}
