/** Minimum edit distance between two strings with unit costs, the edit
    script read back from the table, and the three alignment rows built by
    replaying a script.  Scripts are strings over the tags
    'M' (match), 'C' (convert), 'I' (insert) and 'D' (delete). */
module MyEditDistance {

  /*------------------------------------------------------------------------
    Specification functions
  ------------------------------------------------------------------------*/

  /** The smallest of three values (std::min over an initializer list). */
  function Min3(a: nat, b: nat, c: nat): (m: nat)
    ensures m <= a && m <= b && m <= c
    ensures m == a || m == b || m == c
  {
    if a <= b && a <= c then a else if b <= c then b else c
  }

  /** The value the table holds at dp[i][j]: i for the first column, j for
      the first row, the diagonal when s[i-1] and t[j-1] agree, one more
      than the least of diagonal, left and up otherwise. */
  function Dist(s: string, t: string, i: nat, j: nat): nat
    requires i <= |s| && j <= |t|
    decreases i + j
  {
    if i == 0 then j
    else if j == 0 then i
    else if s[i - 1] == t[j - 1] then Dist(s, t, i - 1, j - 1)
    else Min3(Dist(s, t, i - 1, j - 1), Dist(s, t, i, j - 1), Dist(s, t, i - 1, j)) + 1
  }

  /** n copies of c. */
  function Repeat(c: char, n: nat): (r: string)
    ensures |r| == n
    ensures forall k :: 0 <= k < n ==> r[k] == c
  {
    if n == 0 then "" else Repeat(c, n - 1) + [c]
  }

  /** Number of occurrences of c in w. */
  function Count(w: string, c: char): nat
  {
    if w == "" then 0
    else Count(w[..|w| - 1], c) + (if w[|w| - 1] == c then 1 else 0)
  }

  /** Number of edit operations (every tag except 'M') of a script. */
  function Edits(w: string): (e: nat)
    ensures e <= |w|
  {
    TagCount(w);
    Count(w, 'C') + Count(w, 'I') + Count(w, 'D')
  }

  /** Characters of the first string a script consumes. */
  function Consumed1(w: string): (c: nat)
    ensures c <= |w|
  {
    TagCount(w);
    Count(w, 'M') + Count(w, 'C') + Count(w, 'D')
  }

  /** Characters of the second string a script consumes. */
  function Consumed2(w: string): (c: nat)
    ensures c <= |w|
  {
    TagCount(w);
    Count(w, 'M') + Count(w, 'C') + Count(w, 'I')
  }

  /** A script holds no more tags than characters. */
  lemma {:induction false} TagCount(w: string)
    ensures Count(w, 'M') + Count(w, 'C') + Count(w, 'I') + Count(w, 'D') <= |w|
    decreases |w|
  {
    if w != "" {
      TagCount(w[..|w| - 1]);
    }
  }

  /** Converts(w, s, t, i, j): replaying the script w turns s[..i] into t[..j].
      'M' consumes one character of each, and they must be equal; 'C' one of
      each; 'I' one of t; 'D' one of s.  Any other character is not a tag. */
  predicate Converts(w: string, s: string, t: string, i: nat, j: nat)
    requires i <= |s| && j <= |t|
    decreases |w|
  {
    if w == "" then i == 0 && j == 0
    else
      var op, init := w[|w| - 1], w[..|w| - 1];
      if op == 'M' then i > 0 && j > 0 && s[i - 1] == t[j - 1] && Converts(init, s, t, i - 1, j - 1)
      else if op == 'C' then i > 0 && j > 0 && Converts(init, s, t, i - 1, j - 1)
      else if op == 'I' then j > 0 && Converts(init, s, t, i, j - 1)
      else if op == 'D' then i > 0 && Converts(init, s, t, i - 1, j)
      else false
  }

  /** What the third backtracking loop prepends from (i, j): a 'C' while a
      character of each string remains and the two differ, an 'I' otherwise. */
  function Flush(s: string, t: string, i: nat, j: nat): (r: string)
    requires i <= |s| && j <= |t|
    ensures |r| == j
    ensures forall k :: 0 <= k < j ==> r[k] == 'C' || r[k] == 'I'
    decreases j
  {
    if j == 0 then ""
    else if i > 0 && s[i - 1] != t[j - 1] then Flush(s, t, i - 1, j - 1) + ['C']
    else Flush(s, t, i, j - 1) + ['I']
  }

  /** The tag Backtrack emits last at cell (i, j) inside the table. */
  function BacktrackTag(s: string, t: string, i: nat, j: nat): (op: char)
    requires 0 < i <= |s| && 0 < j <= |t|
    ensures op in "MCID"
  {
    var here, up, left, diag := Dist(s, t, i, j), Dist(s, t, i - 1, j), Dist(s, t, i, j - 1), Dist(s, t, i - 1, j - 1);
    if up <= diag && up <= left && up < here then 'D'
    else if left <= diag && left <= up && left < here then 'I'
    else if diag == here then 'M'
    else 'C'
  }

  /** The script backtracking emits, starting from cell (i, j): the up
      neighbour (a delete) when it is a least predecessor below the cell, else
      the left neighbour (an insert) under the same test, else the diagonal,
      a match when its value equals the cell's and a convert otherwise.  Once
      a border is reached the remaining rows become deletes and the remaining
      columns go through Flush. */
  function Backtrack(s: string, t: string, i: nat, j: nat): string
    requires i <= |s| && j <= |t|
    decreases i + j
  {
    if i > 0 && j > 0 then
      var op := BacktrackTag(s, t, i, j);
      if op == 'D' then Backtrack(s, t, i - 1, j) + ['D']
      else if op == 'I' then Backtrack(s, t, i, j - 1) + ['I']
      else Backtrack(s, t, i - 1, j - 1) + [op]
    else Flush(s, t, 0, j) + Repeat('D', i)
  }

  /** The same script with the roles of the two strings exchanged. */
  function SwapRoles(w: string): (r: string)
    ensures |r| == |w|
  {
    if w == "" then ""
    else
      var op := w[|w| - 1];
      SwapRoles(w[..|w| - 1]) + [if op == 'I' then 'D' else if op == 'D' then 'I' else op]
  }

  /*------------------------------------------------------------------------
    Lemmas about the table and about scripts
  ------------------------------------------------------------------------*/

  /** Count splits over the last character. */
  lemma CountSnoc(w: string, c: char, x: char)
    ensures Count(w + [x], c) == Count(w, c) + (if x == c then 1 else 0)
  {
    assert (w + [x])[..|w|] == w;
  }

  /** A prefix holds no more occurrences than the whole string. */
  lemma {:induction false} CountPrefix(w: string, c: char, n: nat)
    requires n <= |w|
    ensures Count(w[..n], c) <= Count(w, c)
    decreases |w|
  {
    if n < |w| {
      assert w[..n] == w[..|w| - 1][..n];
      CountPrefix(w[..|w| - 1], c, n);
    } else {
      assert w[..n] == w;
    }
  }

  /** A cell of the table lies between the difference and the larger of the
      two prefix lengths. */
  lemma DistBounds(s: string, t: string, i: nat, j: nat)
    requires i <= |s| && j <= |t|
    ensures (if i <= j then j - i else i - j) <= Dist(s, t, i, j) <= (if i <= j then j else i)
  {
    DistLower(s, t, i, j);
    DistUpper(s, t, i, j);
  }

  /** A cell is no larger than the longer prefix: substitute along the
      diagonal and insert or delete the rest. */
  lemma {:induction false} DistUpper(s: string, t: string, i: nat, j: nat)
    requires i <= |s| && j <= |t|
    ensures Dist(s, t, i, j) <= (if i <= j then j else i)
    decreases i + j
  {
    if i > 0 && j > 0 {
      DistUpper(s, t, i - 1, j - 1);
    }
  }

  /** A cell is no smaller than the difference of the prefix lengths. */
  lemma {:induction false} DistLower(s: string, t: string, i: nat, j: nat)
    requires i <= |s| && j <= |t|
    ensures (if i <= j then j - i else i - j) <= Dist(s, t, i, j)
    decreases i + j
  {
    if i > 0 && j > 0 {
      DistLower(s, t, i - 1, j - 1);
      if s[i - 1] != t[j - 1] {
        DistLower(s, t, i, j - 1);
        DistLower(s, t, i - 1, j);
      }
    }
  }

  /** Neighbouring cells of the table differ by at most one. */
  lemma {:induction false} Adjacent(s: string, t: string, i: nat, j: nat)
    requires i <= |s| && j <= |t|
    ensures i > 0 ==> Dist(s, t, i, j) <= Dist(s, t, i - 1, j) + 1 && Dist(s, t, i - 1, j) <= Dist(s, t, i, j) + 1
    ensures j > 0 ==> Dist(s, t, i, j) <= Dist(s, t, i, j - 1) + 1 && Dist(s, t, i, j - 1) <= Dist(s, t, i, j) + 1
    decreases i + j
  {
    if i > 0 && j > 0 {
      Adjacent(s, t, i - 1, j);
      Adjacent(s, t, i, j - 1);
    }
  }

  /** The number of edits of any script that turns s[..i] into t[..j] is at
      least Dist(s, t, i, j): the table holds the minimum edit count. */
  lemma {:induction false} Minimal(w: string, s: string, t: string, i: nat, j: nat)
    requires i <= |s| && j <= |t|
    requires Converts(w, s, t, i, j)
    ensures Dist(s, t, i, j) <= Edits(w)
    decreases |w|
  {
    if w != "" {
      var op, init := w[|w| - 1], w[..|w| - 1];
      assert w == init + [op];
      CountSnoc(init, 'C', op);
      CountSnoc(init, 'I', op);
      CountSnoc(init, 'D', op);
      Adjacent(s, t, i, j);
      if op == 'M' || op == 'C' {
        Minimal(init, s, t, i - 1, j - 1);
      } else if op == 'I' {
        Minimal(init, s, t, i, j - 1);
      } else {
        Minimal(init, s, t, i - 1, j);
      }
    }
  }

  /** A script relating s[..i] and t[..j] consumes exactly i characters of s
      and j of t, and holds only the four tags. */
  lemma {:induction false} ConvertsCounts(w: string, s: string, t: string, i: nat, j: nat)
    requires i <= |s| && j <= |t|
    requires Converts(w, s, t, i, j)
    ensures Consumed1(w) == i && Consumed2(w) == j
    ensures forall k :: 0 <= k < |w| ==> w[k] in "MCID"
    decreases |w|
  {
    if w != "" {
      var op, init := w[|w| - 1], w[..|w| - 1];
      assert w == init + [op];
      CountSnoc(init, 'M', op);
      CountSnoc(init, 'C', op);
      CountSnoc(init, 'I', op);
      CountSnoc(init, 'D', op);
      if op == 'M' || op == 'C' {
        ConvertsCounts(init, s, t, i - 1, j - 1);
      } else if op == 'I' {
        ConvertsCounts(init, s, t, i, j - 1);
      } else {
        ConvertsCounts(init, s, t, i - 1, j);
      }
    }
  }

  /** A script turning s[..i] into t[..j] is at least as long as either
      prefix and no longer than both together. */
  lemma {:induction false} ConvertsLength(w: string, s: string, t: string, i: nat, j: nat)
    requires i <= |s| && j <= |t|
    requires Converts(w, s, t, i, j)
    ensures i <= |w| && j <= |w| && |w| <= i + j
    decreases |w|
  {
    if w != "" {
      var op, init := w[|w| - 1], w[..|w| - 1];
      if op == 'M' || op == 'C' {
        ConvertsLength(init, s, t, i - 1, j - 1);
      } else if op == 'I' {
        ConvertsLength(init, s, t, i, j - 1);
      } else {
        ConvertsLength(init, s, t, i - 1, j);
      }
    }
  }

  /** The third loop's convert branch never fires when it starts at i == 0:
      what it emits is inserts only. */
  lemma {:induction false} FlushFromFirstColumn(s: string, t: string, j: nat)
    requires j <= |t|
    ensures Flush(s, t, 0, j) == Repeat('I', j)
    decreases j
  {
    if j > 0 {
      FlushFromFirstColumn(s, t, j - 1);
    }
  }

  /** Deleting i characters relates s[..i] to the empty prefix of t. */
  lemma {:induction false} DeletesConvert(s: string, t: string, i: nat)
    requires i <= |s|
    ensures Converts(Repeat('D', i), s, t, i, 0)
    ensures Edits(Repeat('D', i)) == i
    decreases i
  {
    if i > 0 {
      DeletesConvert(s, t, i - 1);
      var w := Repeat('D', i);
      assert w[..|w| - 1] == Repeat('D', i - 1);
      CountSnoc(Repeat('D', i - 1), 'C', 'D');
      CountSnoc(Repeat('D', i - 1), 'I', 'D');
      CountSnoc(Repeat('D', i - 1), 'D', 'D');
    }
  }

  /** Inserting j characters relates the empty prefix of s to t[..j]. */
  lemma {:induction false} InsertsConvert(s: string, t: string, j: nat)
    requires j <= |t|
    ensures Converts(Repeat('I', j), s, t, 0, j)
    ensures Edits(Repeat('I', j)) == j
    decreases j
  {
    if j > 0 {
      InsertsConvert(s, t, j - 1);
      var w := Repeat('I', j);
      assert w[..|w| - 1] == Repeat('I', j - 1);
      CountSnoc(Repeat('I', j - 1), 'C', 'I');
      CountSnoc(Repeat('I', j - 1), 'I', 'I');
      CountSnoc(Repeat('I', j - 1), 'D', 'I');
    }
  }

  /** The backtracked script turns s[..i] into t[..j] with exactly
      Dist(s, t, i, j) edits: with Minimal, it is a shortest script. */
  lemma {:induction false} BacktrackCorrect(s: string, t: string, i: nat, j: nat)
    requires i <= |s| && j <= |t|
    ensures Converts(Backtrack(s, t, i, j), s, t, i, j)
    ensures Edits(Backtrack(s, t, i, j)) == Dist(s, t, i, j)
    decreases i + j, 1
  {
    if i > 0 && j > 0 {
      var op := BacktrackTag(s, t, i, j);
      if op == 'D' {
        DeleteCell(s, t, i, j);
      } else if op == 'I' {
        InsertCell(s, t, i, j);
      } else {
        DiagCell(s, t, i, j);
      }
    } else if j == 0 {
      assert Backtrack(s, t, i, j) == Repeat('D', i);
      DeletesConvert(s, t, i);
    } else {
      FlushFromFirstColumn(s, t, j);
      assert Backtrack(s, t, i, j) == Repeat('I', j);
      InsertsConvert(s, t, j);
    }
  }

  /** The backtracked script from (i, j) holds only tags, and its length lies
      between the larger of i and j and their sum. */
  lemma BacktrackShape(s: string, t: string, i: nat, j: nat)
    requires i <= |s| && j <= |t|
    ensures (if i <= j then j else i) <= |Backtrack(s, t, i, j)| <= i + j
    ensures forall k :: 0 <= k < |Backtrack(s, t, i, j)| ==> Backtrack(s, t, i, j)[k] in "MCID"
  {
    BacktrackCorrect(s, t, i, j);
    ConvertsLength(Backtrack(s, t, i, j), s, t, i, j);
    ConvertsCounts(Backtrack(s, t, i, j), s, t, i, j);
  }

  /** Backtracking steps up: the script gains a 'D' and one edit. */
  lemma {:induction false} DeleteCell(s: string, t: string, i: nat, j: nat)
    requires 0 < i <= |s| && 0 < j <= |t|
    requires BacktrackTag(s, t, i, j) == 'D'
    ensures Converts(Backtrack(s, t, i, j), s, t, i, j)
    ensures Edits(Backtrack(s, t, i, j)) == Dist(s, t, i, j)
    decreases i + j, 0
  {
    Adjacent(s, t, i, j);
    BacktrackCorrect(s, t, i - 1, j);
    var prev := Backtrack(s, t, i - 1, j);
    assert Backtrack(s, t, i, j) == prev + ['D'];
    SnocConverts(prev, 'D', s, t, i, j);
  }

  /** Backtracking steps left: the script gains an 'I' and one edit. */
  lemma {:induction false} InsertCell(s: string, t: string, i: nat, j: nat)
    requires 0 < i <= |s| && 0 < j <= |t|
    requires BacktrackTag(s, t, i, j) == 'I'
    ensures Converts(Backtrack(s, t, i, j), s, t, i, j)
    ensures Edits(Backtrack(s, t, i, j)) == Dist(s, t, i, j)
    decreases i + j, 0
  {
    Adjacent(s, t, i, j);
    BacktrackCorrect(s, t, i, j - 1);
    var prev := Backtrack(s, t, i, j - 1);
    assert Backtrack(s, t, i, j) == prev + ['I'];
    SnocConverts(prev, 'I', s, t, i, j);
  }

  /** Backtracking steps diagonally: a match where the cell equals its
      diagonal (the characters then agree), a convert costing one edit
      otherwise. */
  lemma {:induction false} DiagCell(s: string, t: string, i: nat, j: nat)
    requires 0 < i <= |s| && 0 < j <= |t|
    requires BacktrackTag(s, t, i, j) in "MC"
    ensures Converts(Backtrack(s, t, i, j), s, t, i, j)
    ensures Edits(Backtrack(s, t, i, j)) == Dist(s, t, i, j)
    decreases i + j, 0
  {
    BacktrackCorrect(s, t, i - 1, j - 1);
    var prev := Backtrack(s, t, i - 1, j - 1);
    if Dist(s, t, i - 1, j - 1) == Dist(s, t, i, j) {
      assert Backtrack(s, t, i, j) == prev + ['M'];
      SnocConverts(prev, 'M', s, t, i, j);
    } else {
      assert Backtrack(s, t, i, j) == prev + ['C'];
      SnocConverts(prev, 'C', s, t, i, j);
    }
  }

  /** Moving one tag from the end of the pending script to the front of
      the emitted part leaves the whole unchanged. */
  lemma Reassociate(x: string, c: char, y: string)
    ensures (x + [c]) + y == x + ([c] + y)
  {
  }

  /** One backtracking step moves the tag Backtrack chooses at (i, j) from
      the end of the pending script to the front of the emitted part. */
  lemma PrependStep(s: string, t: string, i: nat, j: nat, ops: string)
    requires 0 < i <= |s| && 0 < j <= |t|
    ensures var op := BacktrackTag(s, t, i, j);
      Backtrack(s, t, i, j) + ops ==
      Backtrack(s, t, if op == 'I' then i else i - 1, if op == 'D' then j else j - 1) + ([op] + ops)
  {
    var op := BacktrackTag(s, t, i, j);
    if op == 'D' {
      Reassociate(Backtrack(s, t, i - 1, j), 'D', ops);
    } else if op == 'I' {
      Reassociate(Backtrack(s, t, i, j - 1), 'I', ops);
    } else {
      Reassociate(Backtrack(s, t, i - 1, j - 1), op, ops);
    }
  }

  /** Appending one tag to a script for the prefixes the tag leaves over
      gives a script for (i, j) with one more edit unless the tag is 'M'. */
  lemma SnocConverts(init: string, op: char, s: string, t: string, i: nat, j: nat)
    requires i <= |s| && j <= |t| && op in "MCID"
    requires op == 'M' ==> i > 0 && j > 0 && s[i - 1] == t[j - 1] && Converts(init, s, t, i - 1, j - 1)
    requires op == 'C' ==> i > 0 && j > 0 && Converts(init, s, t, i - 1, j - 1)
    requires op == 'I' ==> j > 0 && Converts(init, s, t, i, j - 1)
    requires op == 'D' ==> i > 0 && Converts(init, s, t, i - 1, j)
    ensures Converts(init + [op], s, t, i, j)
    ensures Edits(init + [op]) == Edits(init) + (if op == 'M' then 0 else 1)
  {
    var w := init + [op];
    assert w[..|w| - 1] == init;
    CountSnoc(init, 'C', op);
    CountSnoc(init, 'I', op);
    CountSnoc(init, 'D', op);
  }

  /** Identical strings are at distance 0 and backtrack into matches only. */
  lemma {:induction false} IdenticalStrings(s: string, i: nat)
    requires i <= |s|
    ensures Dist(s, s, i, i) == 0
    ensures Backtrack(s, s, i, i) == Repeat('M', i)
    decreases i
  {
    if i > 0 {
      IdenticalStrings(s, i - 1);
    }
  }

  /** Exchanging inserts and deletes turns a script for (s, t) into one for
      (t, s) with the same number of edits. */
  lemma {:induction false} SwapRolesConverts(w: string, s: string, t: string, i: nat, j: nat)
    requires i <= |s| && j <= |t|
    requires Converts(w, s, t, i, j)
    ensures Converts(SwapRoles(w), t, s, j, i)
    ensures Edits(SwapRoles(w)) == Edits(w)
    decreases |w|
  {
    if w != "" {
      var op, init := w[|w| - 1], w[..|w| - 1];
      var op' := if op == 'I' then 'D' else if op == 'D' then 'I' else op;
      assert w == init + [op];
      assert SwapRoles(w) == SwapRoles(init) + [op'];
      CountSnoc(init, 'C', op);
      CountSnoc(init, 'I', op);
      CountSnoc(init, 'D', op);
      if op == 'M' || op == 'C' {
        SwapRolesConverts(init, s, t, i - 1, j - 1);
      } else if op == 'I' {
        SwapRolesConverts(init, s, t, i, j - 1);
      } else {
        SwapRolesConverts(init, s, t, i - 1, j);
      }
      SnocConverts(SwapRoles(init), op', t, s, j, i);
    }
  }

  /** The edit distance does not depend on the order of the two strings. */
  lemma Symmetric(s: string, t: string)
    ensures Dist(s, t, |s|, |t|) == Dist(t, s, |t|, |s|)
  {
    BacktrackCorrect(s, t, |s|, |t|);
    BacktrackCorrect(t, s, |t|, |s|);
    SwapRolesConverts(Backtrack(s, t, |s|, |t|), s, t, |s|, |t|);
    SwapRolesConverts(Backtrack(t, s, |t|, |s|), t, s, |t|, |s|);
    Minimal(SwapRoles(Backtrack(s, t, |s|, |t|)), t, s, |t|, |s|);
    Minimal(SwapRoles(Backtrack(t, s, |t|, |s|)), s, t, |s|, |t|);
  }

  /*------------------------------------------------------------------------
    EditDistance
  ------------------------------------------------------------------------*/

  /** The inner loop of the table fill: computes row i from row i - 1 and
      dp[i][0], leaving every other row as it was. */
  method FillRow(str1: string, str2: string, dp: array2<nat>, i: nat)
    requires 0 < i <= |str1| && dp.Length0 == |str1| + 1 && dp.Length1 == |str2| + 1
    requires forall a, b {:trigger dp[a, b]} :: 0 <= a < i && 0 <= b <= |str2| ==> dp[a, b] == Dist(str1, str2, a, b)
    requires dp[i, 0] == Dist(str1, str2, i, 0)
    modifies dp
    ensures forall a, b {:trigger dp[a, b]} :: 0 <= a <= i && 0 <= b <= |str2| ==> dp[a, b] == Dist(str1, str2, a, b)
    ensures forall a, b {:trigger dp[a, b]} :: 0 <= a < dp.Length0 && 0 <= b < dp.Length1 && a != i ==> dp[a, b] == old(dp[a, b])
  {
    for j := 1 to |str2| + 1
      invariant forall b {:trigger dp[i, b]} :: 0 <= b < j ==> dp[i, b] == Dist(str1, str2, i, b)
      invariant forall a, b {:trigger dp[a, b]} :: 0 <= a < dp.Length0 && 0 <= b < dp.Length1 && a != i ==> dp[a, b] == old(dp[a, b])
    {
      assert dp[i - 1, j - 1] == Dist(str1, str2, i - 1, j - 1) && dp[i - 1, j] == Dist(str1, str2, i - 1, j);
      assert dp[i, j - 1] == Dist(str1, str2, i, j - 1);
      var cell;
      if str1[i - 1] == str2[j - 1] {
        cell := dp[i - 1, j - 1];
      } else {
        cell := Min3(dp[i - 1, j - 1], dp[i, j - 1], dp[i - 1, j]) + 1;
      }
      assert cell == Dist(str1, str2, i, j);
      dp[i, j] := cell;
    }
  }

  /** The table of EditDistance: dp[i, j] == Dist(str1, str2, i, j) for every
      cell, filled by the initialisation loops and the row-by-row loops. */
  method FillTable(str1: string, str2: string) returns (dp: array2<nat>)
    ensures fresh(dp) && dp.Length0 == |str1| + 1 && dp.Length1 == |str2| + 1
    ensures forall a, b {:trigger dp[a, b]} :: 0 <= a <= |str1| && 0 <= b <= |str2| ==> dp[a, b] == Dist(str1, str2, a, b)
  {
    var len1, len2 := |str1|, |str2|;
    dp := new nat[len1 + 1, len2 + 1];

    // Column 0 and row 0: the distance to or from an empty prefix.
    for i := 0 to len1 + 1
      invariant forall a {:trigger dp[a, 0]} :: 0 <= a < i ==> dp[a, 0] == a
    {
      dp[i, 0] := i;
    }
    for j := 0 to len2 + 1
      invariant forall a {:trigger dp[a, 0]} :: 0 <= a <= len1 ==> dp[a, 0] == Dist(str1, str2, a, 0)
      invariant forall b {:trigger dp[0, b]} :: 0 <= b < j ==> dp[0, b] == b
    {
      dp[0, j] := j;
    }

    // Rows 1..len1, each cell by the recurrence Dist.
    for i := 1 to len1 + 1
      invariant forall a, b {:trigger dp[a, b]} :: 0 <= a < i && 0 <= b <= len2 ==> dp[a, b] == Dist(str1, str2, a, b)
      invariant forall a {:trigger dp[a, 0]} :: i <= a <= len1 ==> dp[a, 0] == Dist(str1, str2, a, 0)
      invariant dp.Length0 == len1 + 1 && dp.Length1 == len2 + 1
    {
      FillRow(str1, str2, dp, i);
    }
  }

  /** The last backtracking loop, run from cell (i, j): it prepends 'C'
      while a row is left and the characters differ, and 'I' otherwise.
      EditDistance only enters it in row 0, where every step is an 'I'. */
  method TrailingInserts(str1: string, str2: string, i0: nat, j0: nat, operations0: string) returns (operations: string)
    requires i0 <= |str1| && j0 <= |str2|
    ensures operations == Flush(str1, str2, i0, j0) + operations0
  {
    operations := operations0;
    var i: nat, j: nat := i0, j0;
    while j > 0
      invariant i <= |str1| && j <= |str2|
      invariant Flush(str1, str2, i0, j0) + operations0 == Flush(str1, str2, i, j) + operations
    {
      if i > 0 && str1[i - 1] != str2[j - 1] {
        Reassociate(Flush(str1, str2, i - 1, j - 1), 'C', operations);
        operations := "C" + operations;
        i := i - 1;
      } else {
        Reassociate(Flush(str1, str2, i, j - 1), 'I', operations);
        operations := "I" + operations;
      }
      j := j - 1;
    }
    assert Flush(str1, str2, i, 0) == "";
  }

  /** One step of the main backtracking loop at cell (i0, j0): the source's
      three-way test on the neighbouring cells picks the tag to prepend and
      the cell to move to. */
  method BacktrackStep(str1: string, str2: string, dp: array2<nat>, i0: nat, j0: nat, operations0: string) returns (i: nat, j: nat, operations: string)
    requires 0 < i0 <= |str1| && 0 < j0 <= |str2|
    requires dp.Length0 == |str1| + 1 && dp.Length1 == |str2| + 1
    requires dp[i0, j0] == Dist(str1, str2, i0, j0) && dp[i0 - 1, j0] == Dist(str1, str2, i0 - 1, j0)
    requires dp[i0, j0 - 1] == Dist(str1, str2, i0, j0 - 1) && dp[i0 - 1, j0 - 1] == Dist(str1, str2, i0 - 1, j0 - 1)
    ensures var op := BacktrackTag(str1, str2, i0, j0);
      operations == [op] + operations0 &&
      i == (if op == 'I' then i0 else i0 - 1) && j == (if op == 'D' then j0 else j0 - 1)
  {
    i, j, operations := i0, j0, operations0;
    var here, up, left, diag := dp[i, j], dp[i - 1, j], dp[i, j - 1], dp[i - 1, j - 1];
    if up <= diag && up <= left && up < here {
      operations := "D" + operations;
      i := i - 1;
    } else if left <= diag && left <= up && left < here {
      operations := "I" + operations;
      j := j - 1;
    } else {
      if diag == here {
        operations := "M" + operations;
      } else {
        operations := "C" + operations;
      }
      i := i - 1;
      j := j - 1;
    }
  }

  /** The backtracking half of EditDistance: walks the filled table from the
      last cell to the first, prepending one tag per step to operations0. */
  method Backtrace(str1: string, str2: string, dp: array2<nat>, operations0: string) returns (operations: string)
    requires dp.Length0 == |str1| + 1 && dp.Length1 == |str2| + 1
    requires forall a, b {:trigger dp[a, b]} :: 0 <= a <= |str1| && 0 <= b <= |str2| ==> dp[a, b] == Dist(str1, str2, a, b)
    ensures operations == Backtrack(str1, str2, |str1|, |str2|) + operations0
  {
    var len1, len2 := |str1|, |str2|;
    ghost var full := Backtrack(str1, str2, len1, len2);
    operations := operations0;
    var i: nat, j: nat := len1, len2;
    while i > 0 && j > 0
      invariant i <= len1 && j <= len2
      invariant full + operations0 == Backtrack(str1, str2, i, j) + operations
      decreases i + j
    {
      assert dp[i, j] == Dist(str1, str2, i, j) && dp[i - 1, j] == Dist(str1, str2, i - 1, j);
      assert dp[i, j - 1] == Dist(str1, str2, i, j - 1) && dp[i - 1, j - 1] == Dist(str1, str2, i - 1, j - 1);
      PrependStep(str1, str2, i, j, operations);
      i, j, operations := BacktrackStep(str1, str2, dp, i, j, operations);
    }
    while i > 0
      invariant i <= len1 && j <= len2
      invariant full + operations0 == (Flush(str1, str2, 0, j) + Repeat('D', i)) + operations
    {
      assert Flush(str1, str2, 0, j) + Repeat('D', i) == (Flush(str1, str2, 0, j) + Repeat('D', i - 1)) + ['D'];
      Reassociate(Flush(str1, str2, 0, j) + Repeat('D', i - 1), 'D', operations);
      operations := "D" + operations;
      i := i - 1;
    }
    operations := TrailingInserts(str1, str2, i, j, operations);
  }

  /** Fills the (|str1|+1) x (|str2|+1) table, backtracks from its last
      cell, prepending one tag per step to what `operations` already held,
      and returns dp[|str1|][|str2|]. */
  method EditDistance(str1: string, str2: string, operations0: string) returns (distance: nat, operations: string)
    ensures distance == Dist(str1, str2, |str1|, |str2|)
    ensures operations == Backtrack(str1, str2, |str1|, |str2|) + operations0
    ensures |operations0| <= |operations| && operations[|operations| - |operations0|..] == operations0
    ensures var script := operations[..|operations| - |operations0|];
      Converts(script, str1, str2, |str1|, |str2|) && Edits(script) == distance &&
      Count(script, 'M') + Count(script, 'C') + Count(script, 'D') == |str1| &&
      Count(script, 'M') + Count(script, 'C') + Count(script, 'I') == |str2| &&
      forall k :: 0 <= k < |script| ==> script[k] in "MCID"
    ensures forall w :: Converts(w, str1, str2, |str1|, |str2|) ==> distance <= Edits(w)
    ensures str1 == str2 ==> distance == 0 && operations == Repeat('M', |str1|) + operations0
    ensures (if |str1| <= |str2| then |str2| - |str1| else |str1| - |str2|) <= distance
    ensures distance <= (if |str1| <= |str2| then |str2| else |str1|)
    ensures (if |str1| <= |str2| then |str2| else |str1|) <= |operations| - |operations0| <= |str1| + |str2|
  {
    var len1, len2 := |str1|, |str2|;
    var dp := FillTable(str1, str2);

    operations := Backtrace(str1, str2, dp, operations0);
    ghost var full := Backtrack(str1, str2, len1, len2);

    // The bottom-right cell is the distance between the whole strings.
    distance := dp[len1, len2];

    BacktrackCorrect(str1, str2, len1, len2);
    ConvertsCounts(full, str1, str2, len1, len2);
    DistBounds(str1, str2, len1, len2);
    BacktrackShape(str1, str2, len1, len2);
    assert operations == full + operations0;
    assert operations[..|operations| - |operations0|] == full;
    assert operations[|operations| - |operations0|..] == operations0;
    forall w | Converts(w, str1, str2, len1, len2)
      ensures distance <= Edits(w)
    {
      Minimal(w, str1, str2, len1, len2);
    }
    if str1 == str2 {
      IdenticalStrings(str1, len1);
    }
  }

  /*------------------------------------------------------------------------
    Alignment rows
  ------------------------------------------------------------------------*/

  /** The characters of w that are tags; the row builder ignores the rest. */
  function Tags(w: string): (r: string)
    ensures |r| <= |w|
  {
    if w == "" then ""
    else Tags(w[..|w| - 1]) + (if w[|w| - 1] in "MCID" then [w[|w| - 1]] else "")
  }

  /** The middle-row marker of a tag. */
  function Marker(op: char): (m: char)
    ensures m in "|* "
    ensures (m == '|') == (op == 'M') && (m == '*') == (op == 'C')
  {
    if op == 'M' then '|' else if op == 'C' then '*' else ' '
  }

  /** The characters of row standing in columns whose tag is not gap. */
  function Gapless(row: string, tags: string, gap: char): string
    requires |row| == |tags|
  {
    if row == "" then ""
    else Gapless(row[..|row| - 1], tags[..|tags| - 1], gap) + (if tags[|tags| - 1] == gap then "" else [row[|row| - 1]])
  }

  /** row with every occurrence of c removed. */
  function Without(row: string, c: char): string
  {
    if row == "" then ""
    else Without(row[..|row| - 1], c) + (if row[|row| - 1] == c then "" else [row[|row| - 1]])
  }

  /** The first row of the alignment replaying w against s: a 'D', 'M' or
      'C' column shows the next character of s, an 'I' column shows '-'. */
  function Row1(s: string, w: string): (r: string)
    requires Consumed1(w) <= |s|
    ensures |r| == |Tags(w)|
  {
    if w == "" then ""
    else
      var init, op := w[..|w| - 1], w[|w| - 1];
      Row1(s, init) + (if op == 'I' then "-" else if op in "MCD" then [s[Consumed1(init)]] else "")
  }

  /** The third row: an 'I', 'M' or 'C' column shows the next character of
      t, a 'D' column shows '-'. */
  function Row2(t: string, w: string): (r: string)
    requires Consumed2(w) <= |t|
    ensures |r| == |Tags(w)|
  {
    if w == "" then ""
    else
      var init, op := w[..|w| - 1], w[|w| - 1];
      Row2(t, init) + (if op == 'D' then "-" else if op in "MCI" then [t[Consumed2(init)]] else "")
  }

  /** The middle row: one marker per tag. */
  function Markers(w: string): (r: string)
    ensures |r| == |Tags(w)|
    ensures forall k :: 0 <= k < |r| ==> r[k] == Marker(Tags(w)[k])
  {
    if w == "" then ""
    else Markers(w[..|w| - 1]) + (if w[|w| - 1] in "MCID" then [Marker(w[|w| - 1])] else "")
  }

  /** A prefix of a script consumes no more of either string. */
  lemma ConsumedPrefix(w: string, n: nat)
    requires n <= |w|
    ensures Consumed1(w[..n]) <= Consumed1(w) && Consumed2(w[..n]) <= Consumed2(w)
  {
    CountPrefix(w, 'M', n);
    CountPrefix(w, 'C', n);
    CountPrefix(w, 'I', n);
    CountPrefix(w, 'D', n);
  }

  /** A prefix one character longer. */
  lemma TakeSnoc(s: string, n: nat)
    requires n < |s|
    ensures s[..n + 1] == s[..n] + [s[n]]
  {
  }

  /** Gapless on a row extended by one column. */
  lemma GaplessSnoc(row: string, tags: string, x: char, g: char, gap: char)
    requires |row| == |tags|
    ensures Gapless(row + [x], tags + [g], gap) == Gapless(row, tags, gap) + (if g == gap then "" else [x])
  {
    assert (row + [x])[..|row|] == row;
    assert (tags + [g])[..|tags|] == tags;
  }

  /** Without on a row extended by one character. */
  lemma WithoutSnoc(row: string, x: char, c: char)
    ensures Without(row + [x], c) == Without(row, c) + (if x == c then "" else [x])
  {
    assert (row + [x])[..|row|] == row;
  }

  /** Dropping the gap columns of the first row gives back the consumed
      prefix of s. */
  lemma {:induction false} Row1Gapless(s: string, w: string)
    requires Consumed1(w) <= |s|
    ensures Gapless(Row1(s, w), Tags(w), 'I') == s[..Consumed1(w)]
    decreases |w|
  {
    if w != "" {
      var init, op := w[..|w| - 1], w[|w| - 1];
      var n := Consumed1(init);
      Row1Gapless(s, init);
      if op == 'I' {
        assert Row1(s, w) == Row1(s, init) + ['-'] && Tags(w) == Tags(init) + [op] && Consumed1(w) == n;
        GaplessSnoc(Row1(s, init), Tags(init), '-', op, 'I');
      } else if op in "MCD" {
        assert Row1(s, w) == Row1(s, init) + [s[n]] && Tags(w) == Tags(init) + [op] && Consumed1(w) == n + 1;
        GaplessSnoc(Row1(s, init), Tags(init), s[n], op, 'I');
        TakeSnoc(s, n);
      } else {
        assert Row1(s, w) == Row1(s, init) && Tags(w) == Tags(init);
      }
    }
  }

  /** The same for the third row and t. */
  lemma {:induction false} Row2Gapless(t: string, w: string)
    requires Consumed2(w) <= |t|
    ensures Gapless(Row2(t, w), Tags(w), 'D') == t[..Consumed2(w)]
    decreases |w|
  {
    if w != "" {
      var init, op := w[..|w| - 1], w[|w| - 1];
      var n := Consumed2(init);
      Row2Gapless(t, init);
      if op == 'D' {
        assert Row2(t, w) == Row2(t, init) + ['-'] && Tags(w) == Tags(init) + [op] && Consumed2(w) == n;
        GaplessSnoc(Row2(t, init), Tags(init), '-', op, 'D');
      } else if op in "MCI" {
        assert Row2(t, w) == Row2(t, init) + [t[n]] && Tags(w) == Tags(init) + [op] && Consumed2(w) == n + 1;
        GaplessSnoc(Row2(t, init), Tags(init), t[n], op, 'D');
        TakeSnoc(t, n);
      } else {
        assert Row2(t, w) == Row2(t, init) && Tags(w) == Tags(init);
      }
    }
  }

  /** When s has no '-' of its own, erasing every '-' from the first row
      gives back the consumed prefix of s. */
  lemma {:induction false} Row1Without(s: string, w: string)
    requires Consumed1(w) <= |s| && '-' !in s
    ensures Without(Row1(s, w), '-') == s[..Consumed1(w)]
    decreases |w|
  {
    if w != "" {
      var init, op := w[..|w| - 1], w[|w| - 1];
      var n := Consumed1(init);
      Row1Without(s, init);
      if op == 'I' {
        assert Row1(s, w) == Row1(s, init) + ['-'] && Consumed1(w) == n;
        WithoutSnoc(Row1(s, init), '-', '-');
      } else if op in "MCD" {
        assert Row1(s, w) == Row1(s, init) + [s[n]] && Consumed1(w) == n + 1;
        WithoutSnoc(Row1(s, init), s[n], '-');
        TakeSnoc(s, n);
      } else {
        assert Row1(s, w) == Row1(s, init);
      }
    }
  }

  /** The same for the third row and t. */
  lemma {:induction false} Row2Without(t: string, w: string)
    requires Consumed2(w) <= |t| && '-' !in t
    ensures Without(Row2(t, w), '-') == t[..Consumed2(w)]
    decreases |w|
  {
    if w != "" {
      var init, op := w[..|w| - 1], w[|w| - 1];
      var n := Consumed2(init);
      Row2Without(t, init);
      if op == 'D' {
        assert Row2(t, w) == Row2(t, init) + ['-'] && Consumed2(w) == n;
        WithoutSnoc(Row2(t, init), '-', '-');
      } else if op in "MCI" {
        assert Row2(t, w) == Row2(t, init) + [t[n]] && Consumed2(w) == n + 1;
        WithoutSnoc(Row2(t, init), t[n], '-');
        TakeSnoc(t, n);
      } else {
        assert Row2(t, w) == Row2(t, init);
      }
    }
  }

  /** Insert columns show '-' in the first row and delete columns show '-'
      in the third. */
  lemma {:induction false} GapColumns(s: string, t: string, w: string)
    requires Consumed1(w) <= |s| && Consumed2(w) <= |t|
    ensures forall k :: 0 <= k < |Tags(w)| && Tags(w)[k] == 'I' ==> Row1(s, w)[k] == '-'
    ensures forall k :: 0 <= k < |Tags(w)| && Tags(w)[k] == 'D' ==> Row2(t, w)[k] == '-'
    decreases |w|
  {
    if w != "" {
      var init, op := w[..|w| - 1], w[|w| - 1];
      var n1, n2 := Consumed1(init), Consumed2(init);
      GapColumns(s, t, init);
      if op in "MCID" {
        var x1 := if op == 'I' then '-' else s[n1];
        var x2 := if op == 'D' then '-' else t[n2];
        assert Row1(s, w) == Row1(s, init) + [x1] && Row2(t, w) == Row2(t, init) + [x2] && Tags(w) == Tags(init) + [op];
      } else {
        assert Row1(s, w) == Row1(s, init) && Row2(t, w) == Row2(t, init) && Tags(w) == Tags(init);
      }
    }
  }

  /** For a script that turns s[..i] into t[..j], every column is a tag
      column and a match column shows the same character in both rows. */
  lemma {:induction false} MatchColumns(s: string, t: string, w: string, i: nat, j: nat)
    requires i <= |s| && j <= |t| && Converts(w, s, t, i, j)
    ensures Consumed1(w) == i && Consumed2(w) == j && Tags(w) == w
    ensures forall k :: 0 <= k < |w| && w[k] == 'M' ==> Row1(s, w)[k] == Row2(t, w)[k]
    decreases |w|
  {
    ConvertsCounts(w, s, t, i, j);
    TagsOfTags(w);
    if w != "" {
      var init, op := w[..|w| - 1], w[|w| - 1];
      var pi, pj := if op == 'I' then i else i - 1, if op == 'D' then j else j - 1;
      MatchColumns(s, t, init, pi, pj);
      var r1, r2 := Row1(s, w), Row2(t, w);
      assert r1[..|w| - 1] == Row1(s, init) && r2[..|w| - 1] == Row2(t, init);
      forall k | 0 <= k < |w| && w[k] == 'M'
        ensures r1[k] == r2[k]
      {
        if k < |w| - 1 {
          assert init[k] == w[k];
          assert r1[k] == Row1(s, init)[k] && r2[k] == Row2(t, init)[k];
        }
      }
    }
  }

  /** The rows of an alignment give back what the script consumed of both
      strings, and for a script relating the whole strings every column is a
      tag and the match columns agree. */
  lemma RowsRestore(s: string, t: string, w: string)
    requires Consumed1(w) <= |s| && Consumed2(w) <= |t|
    ensures Gapless(Row1(s, w), Tags(w), 'I') == s[..Consumed1(w)]
    ensures Gapless(Row2(t, w), Tags(w), 'D') == t[..Consumed2(w)]
    ensures '-' !in s ==> Without(Row1(s, w), '-') == s[..Consumed1(w)]
    ensures '-' !in t ==> Without(Row2(t, w), '-') == t[..Consumed2(w)]
    ensures forall k :: 0 <= k < |Tags(w)| && Tags(w)[k] == 'I' ==> Row1(s, w)[k] == '-'
    ensures forall k :: 0 <= k < |Tags(w)| && Tags(w)[k] == 'D' ==> Row2(t, w)[k] == '-'
    ensures Converts(w, s, t, |s|, |t|) ==>
      |Row1(s, w)| == |w| && Gapless(Row1(s, w), w, 'I') == s && Gapless(Row2(t, w), w, 'D') == t &&
      forall k :: 0 <= k < |w| && w[k] == 'M' ==> Row1(s, w)[k] == Row2(t, w)[k]
  {
    Row1Gapless(s, w);
    Row2Gapless(t, w);
    GapColumns(s, t, w);
    if '-' !in s {
      Row1Without(s, w);
    }
    if '-' !in t {
      Row2Without(t, w);
    }
    if Converts(w, s, t, |s|, |t|) {
      MatchColumns(s, t, w, |s|, |t|);
      assert s[..|s|] == s && t[..|t|] == t;
    }
  }

  /** Replaying one more character of w extends what is consumed and each
      row by that character's column. */
  lemma RowsSnoc(s: string, t: string, w: string, i: nat)
    requires i < |w| && Consumed1(w[..i + 1]) <= |s| && Consumed2(w[..i + 1]) <= |t|
    ensures var p, op := w[..i], w[i];
      (op == 'M' || op == 'C' ==>
        Consumed1(w[..i + 1]) == Consumed1(p) + 1 && Consumed2(w[..i + 1]) == Consumed2(p) + 1 &&
        Row1(s, w[..i + 1]) == Row1(s, p) + [s[Consumed1(p)]] && Row2(t, w[..i + 1]) == Row2(t, p) + [t[Consumed2(p)]] &&
        Markers(w[..i + 1]) == Markers(p) + (if op == 'M' then "|" else "*")) &&
      (op == 'I' ==>
        Consumed1(w[..i + 1]) == Consumed1(p) && Consumed2(w[..i + 1]) == Consumed2(p) + 1 &&
        Row1(s, w[..i + 1]) == Row1(s, p) + "-" && Row2(t, w[..i + 1]) == Row2(t, p) + [t[Consumed2(p)]] &&
        Markers(w[..i + 1]) == Markers(p) + " ") &&
      (op == 'D' ==>
        Consumed1(w[..i + 1]) == Consumed1(p) + 1 && Consumed2(w[..i + 1]) == Consumed2(p) &&
        Row1(s, w[..i + 1]) == Row1(s, p) + [s[Consumed1(p)]] && Row2(t, w[..i + 1]) == Row2(t, p) + "-" &&
        Markers(w[..i + 1]) == Markers(p) + " ") &&
      (op !in "MCID" ==>
        Consumed1(w[..i + 1]) == Consumed1(p) && Consumed2(w[..i + 1]) == Consumed2(p) &&
        Row1(s, w[..i + 1]) == Row1(s, p) && Row2(t, w[..i + 1]) == Row2(t, p) && Markers(w[..i + 1]) == Markers(p))
  {
    var q := w[..i + 1];
    assert q[..|q| - 1] == w[..i] && q[|q| - 1] == w[i];
    CountSnoc(w[..i], 'M', w[i]);
    CountSnoc(w[..i], 'C', w[i]);
    CountSnoc(w[..i], 'I', w[i]);
    CountSnoc(w[..i], 'D', w[i]);
    assert q == w[..i] + [w[i]];
  }

  /** Builds the three rows of an alignment by replaying operations from left
      to right: the first string with '-' in insert columns, the markers, and
      the second string with '-' in delete columns.  Characters that are not
      tags add no column. */
  method Alignment(str1: string, str2: string, operations: string) returns (alignedStr1: string, alignmentOps: string, alignedStr2: string)
    requires Consumed1(operations) <= |str1| && Consumed2(operations) <= |str2|
    ensures alignedStr1 == Row1(str1, operations) && alignmentOps == Markers(operations) && alignedStr2 == Row2(str2, operations)
    ensures Gapless(alignedStr1, Tags(operations), 'I') == str1[..Consumed1(operations)]
    ensures Gapless(alignedStr2, Tags(operations), 'D') == str2[..Consumed2(operations)]
    ensures '-' !in str1 ==> Without(alignedStr1, '-') == str1[..Consumed1(operations)]
    ensures '-' !in str2 ==> Without(alignedStr2, '-') == str2[..Consumed2(operations)]
    ensures forall k :: 0 <= k < |alignmentOps| ==> alignmentOps[k] == Marker(Tags(operations)[k])
    ensures forall k :: 0 <= k < |alignedStr1| && Tags(operations)[k] == 'I' ==> alignedStr1[k] == '-'
    ensures forall k :: 0 <= k < |alignedStr2| && Tags(operations)[k] == 'D' ==> alignedStr2[k] == '-'
    ensures Converts(operations, str1, str2, |str1|, |str2|) ==>
      |alignedStr1| == |operations| && Gapless(alignedStr1, operations, 'I') == str1 && Gapless(alignedStr2, operations, 'D') == str2 &&
      forall k :: 0 <= k < |operations| && operations[k] == 'M' ==> alignedStr1[k] == alignedStr2[k]
  {
    alignedStr1, alignedStr2, alignmentOps := "", "", "";
    var index1, index2 := 0, 0;
    for i := 0 to |operations|
      invariant Consumed1(operations[..i]) <= |str1| && Consumed2(operations[..i]) <= |str2|
      invariant index1 == Consumed1(operations[..i]) && index2 == Consumed2(operations[..i])
      invariant alignedStr1 == Row1(str1, operations[..i])
      invariant alignmentOps == Markers(operations[..i])
      invariant alignedStr2 == Row2(str2, operations[..i])
    {
      ConsumedPrefix(operations, i + 1);
      RowsSnoc(str1, str2, operations, i);
      var op := operations[i];
      if op == 'M' {
        alignedStr1 := alignedStr1 + [str1[index1]];
        alignedStr2 := alignedStr2 + [str2[index2]];
        alignmentOps := alignmentOps + "|";
        index1, index2 := index1 + 1, index2 + 1;
      } else if op == 'C' {
        alignedStr1 := alignedStr1 + [str1[index1]];
        alignedStr2 := alignedStr2 + [str2[index2]];
        alignmentOps := alignmentOps + "*";
        index1, index2 := index1 + 1, index2 + 1;
      } else if op == 'I' {
        alignedStr1 := alignedStr1 + "-";
        alignedStr2 := alignedStr2 + [str2[index2]];
        alignmentOps := alignmentOps + " ";
        index2 := index2 + 1;
      } else if op == 'D' {
        alignedStr1 := alignedStr1 + [str1[index1]];
        alignedStr2 := alignedStr2 + "-";
        alignmentOps := alignmentOps + " ";
        index1 := index1 + 1;
      }
    }
    assert operations[..|operations|] == operations;
    RowsRestore(str1, str2, operations);
  }

  /** A string made of tags only is its own tag string. */
  lemma {:induction false} TagsOfTags(w: string)
    requires forall k :: 0 <= k < |w| ==> w[k] in "MCID"
    ensures Tags(w) == w
    decreases |w|
  {
    if w != "" {
      TagsOfTags(w[..|w| - 1]);
    }
  }

  /** The worked example of the alignment layout: replaying "DMMMICM"
      against "ACAACC" and "CAAAAC" gives the rows "ACAA-CC", " ||| *|" and
      "-CAAAAC". */
  lemma DocumentedAlignment(s: string, t: string, w: string)
    requires s == "ACAACC" && t == "CAAAAC" && w == "DMMMICM"
    ensures Consumed1(w) == |s| && Consumed2(w) == |t|
    ensures Row1(s, w) == "ACAA-CC"
    ensures Markers(w) == " ||| *|"
    ensures Row2(t, w) == "-CAAAAC"
  {
    DocumentedRow1(s, w);
    DocumentedMarkers(w);
    DocumentedRow2(t, w);
  }

  /** The first four columns of the first row of the worked example. */
  lemma DocumentedRow1Start(s: string, w: string)
    requires s == "ACAACC" && w == "DMMMICM"
    ensures Consumed1(w[..4]) == 4 && Row1(s, w[..4]) == "ACAA"
  {
    assert w[..1][..0] == w[..0] && w[..1][0] == 'D';
    assert w[..2][..1] == w[..1] && w[..2][1] == 'M';
    assert w[..3][..2] == w[..2] && w[..3][2] == 'M';
    assert w[..4][..3] == w[..3] && w[..4][3] == 'M';
    assert Consumed1(w[..0]) == 0 && Row1(s, w[..1]) == "A";
    assert Consumed1(w[..1]) == 1 && Row1(s, w[..2]) == "AC";
    assert Consumed1(w[..2]) == 2 && Row1(s, w[..3]) == "ACA";
    assert Consumed1(w[..3]) == 3 && Row1(s, w[..4]) == "ACAA";
  }

  /** The first row of the worked example. */
  lemma DocumentedRow1(s: string, w: string)
    requires s == "ACAACC" && w == "DMMMICM"
    ensures Consumed1(w) == |s| && Row1(s, w) == "ACAA-CC"
  {
    DocumentedRow1Start(s, w);
    assert w[..7] == w;
    assert w[..5][..4] == w[..4] && w[..5][4] == 'I';
    assert w[..6][..5] == w[..5] && w[..6][5] == 'C';
    assert w[..7][..6] == w[..6] && w[..7][6] == 'M';
    assert Consumed1(w[..4]) == 4 && Row1(s, w[..5]) == "ACAA-";
    assert Consumed1(w[..5]) == 4 && Row1(s, w[..6]) == "ACAA-C";
    assert Consumed1(w[..6]) == 5 && Row1(s, w[..7]) == "ACAA-CC";
    assert Consumed1(w[..7]) == 6;
  }

  /** The middle row of the worked example. */
  lemma DocumentedMarkers(w: string)
    requires w == "DMMMICM"
    ensures Markers(w) == " ||| *|"
  {
    assert w[..7] == w;
    assert w[..1][..0] == w[..0] && w[..1][0] == 'D';
    assert w[..2][..1] == w[..1] && w[..2][1] == 'M';
    assert w[..3][..2] == w[..2] && w[..3][2] == 'M';
    assert w[..4][..3] == w[..3] && w[..4][3] == 'M';
    assert w[..5][..4] == w[..4] && w[..5][4] == 'I';
    assert w[..6][..5] == w[..5] && w[..6][5] == 'C';
    assert w[..7][..6] == w[..6] && w[..7][6] == 'M';
    assert Markers(w[..1]) == " ";
    assert Markers(w[..2]) == " |";
    assert Markers(w[..3]) == " ||";
    assert Markers(w[..4]) == " |||";
    assert Markers(w[..5]) == " ||| ";
    assert Markers(w[..6]) == " ||| *";
    assert Markers(w[..7]) == " ||| *|";
  }

  /** The first four columns of the third row of the worked example. */
  lemma DocumentedRow2Start(t: string, w: string)
    requires t == "CAAAAC" && w == "DMMMICM"
    ensures Consumed2(w[..4]) == 3 && Row2(t, w[..4]) == "-CAA"
  {
    assert w[..1][..0] == w[..0] && w[..1][0] == 'D';
    assert w[..2][..1] == w[..1] && w[..2][1] == 'M';
    assert w[..3][..2] == w[..2] && w[..3][2] == 'M';
    assert w[..4][..3] == w[..3] && w[..4][3] == 'M';
    assert Consumed2(w[..0]) == 0 && Row2(t, w[..1]) == "-";
    assert Consumed2(w[..1]) == 0 && Row2(t, w[..2]) == "-C";
    assert Consumed2(w[..2]) == 1 && Row2(t, w[..3]) == "-CA";
    assert Consumed2(w[..3]) == 2 && Row2(t, w[..4]) == "-CAA";
  }

  /** The third row of the worked example. */
  lemma DocumentedRow2(t: string, w: string)
    requires t == "CAAAAC" && w == "DMMMICM"
    ensures Consumed2(w) == |t| && Row2(t, w) == "-CAAAAC"
  {
    DocumentedRow2Start(t, w);
    assert w[..7] == w;
    assert w[..5][..4] == w[..4] && w[..5][4] == 'I';
    assert w[..6][..5] == w[..5] && w[..6][5] == 'C';
    assert w[..7][..6] == w[..6] && w[..7][6] == 'M';
    assert Consumed2(w[..4]) == 3 && Row2(t, w[..5]) == "-CAAA";
    assert Consumed2(w[..5]) == 4 && Row2(t, w[..6]) == "-CAAAA";
    assert Consumed2(w[..6]) == 5 && Row2(t, w[..7]) == "-CAAAAC";
    assert Consumed2(w[..7]) == 6;
  }
}
