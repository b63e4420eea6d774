/**
 * Removal of the literal tags `<script>` and `</script>` from a post's title and content.
 *
 * The source calls `String.replaceAll` with patterns that hold no regular-expression
 * metacharacters, so each call scans left to right, removes the leftmost occurrence,
 * resumes scanning right after it, and never looks again at text that a removal
 * brought together.
 */
module ScriptStrip {

  const ScriptOpen: string := "<script>"
  const ScriptClose: string := "</script>"

  /** `s` begins with `pat`. */
  predicate StartsWith(s: string, pat: string)
  {
    |pat| <= |s| && s[..|pat|] == pat
  }

  /** `pat` occurs in `s` starting at index `i`. */
  predicate OccursAt(s: string, pat: string, i: nat)
  {
    i + |pat| <= |s| && s[i..i + |pat|] == pat
  }

  /** `pat` occurs somewhere in `s`. */
  ghost predicate Contains(s: string, pat: string)
  {
    exists i: nat :: OccursAt(s, pat, i)
  }

  /** Every occurrence of `pat` found by a single left-to-right scan of `s` is deleted. */
  function RemoveAll(s: string, pat: string): (r: string)
    ensures |r| <= |s|
    decreases |s|
  {
    if pat == [] || |s| < |pat| then s
    else if StartsWith(s, pat) then RemoveAll(s[|pat|..], pat)
    else [s[0]] + RemoveAll(s[1..], pat)
  }

  /** The sanitising step applied to both fields: first every `<script>`, then every `</script>`. */
  function StripScriptTags(s: string): (r: string)
    ensures |r| <= |s|
  {
    RemoveAll(RemoveAll(s, ScriptOpen), ScriptClose)
  }

  /** An occurrence in `s[1..]` is an occurrence in `s`, one position further on. */
  lemma OccursInTail(s: string, pat: string, i: nat)
    requires |s| > 0 && OccursAt(s[1..], pat, i)
    ensures OccursAt(s, pat, i + 1)
  {
    assert s[1..][i..i + |pat|] == s[i + 1..i + 1 + |pat|];
  }

  /** Input free of `pat` comes back unchanged. */
  lemma {:induction false} TagFreeUnchanged(s: string, pat: string)
    requires pat != [] && !Contains(s, pat)
    ensures RemoveAll(s, pat) == s
    decreases |s|
  {
    if |s| >= |pat| {
      assert !OccursAt(s, pat, 0);
      assert !StartsWith(s, pat) by { assert s[0..|pat|] == s[..|pat|]; }
      forall i: nat ensures !OccursAt(s[1..], pat, i) {
        if OccursAt(s[1..], pat, i) {
          OccursInTail(s, pat, i);
        }
      }
      TagFreeUnchanged(s[1..], pat);
      assert s == [s[0]] + s[1..];
    }
  }

  /** Input holding `pat` strictly shrinks. */
  lemma {:induction false} ContainsShrinks(s: string, pat: string)
    requires pat != [] && Contains(s, pat)
    ensures |RemoveAll(s, pat)| < |s|
    decreases |s|
  {
    var i: nat :| OccursAt(s, pat, i);
    if !StartsWith(s, pat) {
      assert i != 0 by { assert s[0..|pat|] == s[..|pat|]; }
      assert s[1..][i - 1..i - 1 + |pat|] == s[i..i + |pat|];
      assert OccursAt(s[1..], pat, i - 1);
      ContainsShrinks(s[1..], pat);
    }
  }

  /** Removal changes nothing exactly when the pattern does not occur. */
  lemma UnchangedIffAbsent(s: string, pat: string)
    requires pat != []
    ensures RemoveAll(s, pat) == s <==> !Contains(s, pat)
  {
    if Contains(s, pat) {
      ContainsShrinks(s, pat);
    } else {
      TagFreeUnchanged(s, pat);
    }
  }

  /** Dropping the first element of a concatenation with a non-empty left part. */
  lemma TailOfConcat(a: string, b: string)
    requires a != []
    ensures (a + b)[1..] == a[1..] + b
  {
  }

  /** Stripping changes nothing exactly when the input holds neither tag. */
  lemma StripUnchangedIffTagFree(s: string)
    ensures StripScriptTags(s) == s <==> !Contains(s, ScriptOpen) && !Contains(s, ScriptClose)
  {
    if Contains(s, ScriptOpen) {
      ContainsShrinks(s, ScriptOpen);
    } else {
      TagFreeUnchanged(s, ScriptOpen);
      UnchangedIffAbsent(s, ScriptClose);
    }
  }

  /** The pieces with `sep` between each two of them. */
  function Join(pieces: seq<string>, sep: string): string
    requires |pieces| >= 1
    decreases |pieces|
  {
    if |pieces| == 1 then pieces[0] else pieces[0] + sep + Join(pieces[1..], sep)
  }

  /** The pieces one after another. */
  function Concat(pieces: seq<string>): string
    decreases |pieces|
  {
    if pieces == [] then [] else pieces[0] + Concat(pieces[1..])
  }

  /** `s` is the kept `pieces` with one contiguous copy of `pat` between each two, and `r` is the pieces alone, in order. */
  ghost predicate CutAtCopies(s: string, r: string, pat: string, pieces: seq<string>)
  {
    |pieces| >= 1 && s == Join(pieces, pat) && r == Concat(pieces)
  }

  /** No piece holds an occurrence of `pat`. */
  ghost predicate PiecesFree(pieces: seq<string>, pat: string)
  {
    forall i | 0 <= i < |pieces| :: !Contains(pieces[i], pat)
  }

  /**
   * A pass deletes exactly the occurrences its scan meets: the input is the kept pieces
   * separated by contiguous copies of the pattern, the output is the same pieces in the same
   * order, and no kept piece still holds the pattern, so every occurrence met was removed.
   */
  lemma {:induction false} CutsAtOccurrences(s: string, pat: string) returns (pieces: seq<string>)
    ensures CutAtCopies(s, RemoveAll(s, pat), pat, pieces)
    ensures pat != [] ==> PiecesFree(pieces, pat)
    decreases |s|, 1
  {
    if pat == [] || |s| < |pat| {
      pieces := [s];
    } else if StartsWith(s, pat) {
      pieces := CutWhenTagFirst(s, pat);
    } else {
      pieces := CutWhenTextFirst(s, pat);
    }
  }

  /** `CutsAtOccurrences` when the scan removes a tag at the front: an empty first piece. */
  lemma {:induction false} CutWhenTagFirst(s: string, pat: string) returns (pieces: seq<string>)
    requires pat != [] && StartsWith(s, pat)
    ensures CutAtCopies(s, RemoveAll(s, pat), pat, pieces) && PiecesFree(pieces, pat)
    decreases |s|, 0
  {
    var rest := CutsAtOccurrences(s[|pat|..], pat);
    CutAfterTag(s, pat, RemoveAll(s[|pat|..], pat), rest);
    FreeAfterTag(pat, rest);
    pieces := [[]] + rest;
  }

  /** `CutsAtOccurrences` when the scan keeps the first character: it joins the first piece. */
  lemma {:induction false} CutWhenTextFirst(s: string, pat: string) returns (pieces: seq<string>)
    requires pat != [] && |pat| <= |s| && !StartsWith(s, pat)
    ensures CutAtCopies(s, RemoveAll(s, pat), pat, pieces) && PiecesFree(pieces, pat)
    decreases |s|, 0
  {
    var rest := CutsAtOccurrences(s[1..], pat);
    CutAfterChar(s, RemoveAll(s[1..], pat), pat, rest);
    FreeAfterChar(s, pat, rest);
    pieces := [[s[0]] + rest[0]] + rest[1..];
  }

  /** The step of `CutsAtOccurrences` that removes a tag at the front. */
  lemma CutAfterTag(s: string, pat: string, r: string, rest: seq<string>)
    requires StartsWith(s, pat)
    requires CutAtCopies(s[|pat|..], r, pat, rest)
    ensures CutAtCopies(s, r, pat, [[]] + rest)
  {
    var pieces := [[]] + rest;
    assert pieces[1..] == rest;
    assert Join(pieces, pat) == [] + pat + Join(rest, pat);
    assert Concat(pieces) == [] + Concat(rest);
    assert s == s[..|pat|] + s[|pat|..];
  }

  /** The step of `CutsAtOccurrences` that keeps the first character. */
  lemma CutAfterChar(s: string, r: string, pat: string, rest: seq<string>)
    requires s != []
    requires CutAtCopies(s[1..], r, pat, rest)
    ensures CutAtCopies(s, [s[0]] + r, pat, [[s[0]] + rest[0]] + rest[1..])
  {
    var pieces := [[s[0]] + rest[0]] + rest[1..];
    assert pieces[1..] == rest[1..];
    if |rest| == 1 {
      assert Join(pieces, pat) == [s[0]] + Join(rest, pat);
    } else {
      assert Join(pieces, pat) == ([s[0]] + rest[0]) + pat + Join(rest[1..], pat);
      assert Join(rest, pat) == rest[0] + pat + Join(rest[1..], pat);
      assert Join(pieces, pat) == [s[0]] + Join(rest, pat);
    }
    assert Concat(pieces) == ([s[0]] + rest[0]) + Concat(rest[1..]);
    assert Concat(rest) == rest[0] + Concat(rest[1..]);
    assert Concat(pieces) == [s[0]] + Concat(rest);
    assert s == [s[0]] + s[1..];
  }

  /** An empty first piece holds no occurrence. */
  lemma FreeAfterTag(pat: string, rest: seq<string>)
    requires pat != [] && PiecesFree(rest, pat)
    ensures PiecesFree([[]] + rest, pat)
  {
    var pieces := [[]] + rest;
    forall i | 0 <= i < |pieces| ensures !Contains(pieces[i], pat) {
      if i > 0 {
        assert pieces[i] == rest[i - 1];
      }
    }
  }

  /** The first character kept by the scan, joined to the first piece, starts no occurrence. */
  lemma FreeAfterChar(s: string, pat: string, rest: seq<string>)
    requires pat != [] && s != [] && !StartsWith(s, pat)
    requires |rest| >= 1 && s[1..] == Join(rest, pat) && PiecesFree(rest, pat)
    ensures PiecesFree([[s[0]] + rest[0]] + rest[1..], pat)
  {
    var u := [s[0]] + rest[0];
    JoinStartsWithFirst(rest, pat);
    assert s[..|u|] == u by {
      assert s[..|u|] == [s[0]] + s[1..][..|rest[0]|];
    }
    assert !Contains(rest[0], pat);
    ConsKeepsFree(s, u, rest[0], pat);
    var pieces := [u] + rest[1..];
    forall i | 0 <= i < |pieces| ensures !Contains(pieces[i], pat) {
      if i > 0 {
        assert pieces[i] == rest[i];
      }
    }
  }

  /** A joined text begins with its first piece. */
  lemma JoinStartsWithFirst(pieces: seq<string>, sep: string)
    requires |pieces| >= 1
    ensures |pieces[0]| <= |Join(pieces, sep)| && Join(pieces, sep)[..|pieces[0]|] == pieces[0]
  {
    if |pieces| > 1 {
      assert Join(pieces, sep) == pieces[0] + (sep + Join(pieces[1..], sep));
    }
  }

  /**
   * A prefix `u` of `s` that is one character followed by a pattern-free `p` holds no
   * occurrence when `s` does not start with the pattern.
   */
  lemma ConsKeepsFree(s: string, u: string, p: string, pat: string)
    requires pat != [] && |u| == |p| + 1 && u[1..] == p && !Contains(p, pat)
    requires |u| <= |s| && s[..|u|] == u && !StartsWith(s, pat)
    ensures !Contains(u, pat)
  {
    forall i: nat ensures !OccursAt(u, pat, i) {
      if i == 0 {
        if |pat| <= |u| {
          assert u[0..|pat|] == s[..|pat|];
        }
      } else if i + |pat| <= |u| {
        assert u[i..i + |pat|] == p[i - 1..i - 1 + |pat|];
        assert !OccursAt(p, pat, i - 1);
      }
    }
  }

  /**
   * The two passes delete whole tags and nothing else, and every tag they meet: the input is
   * cut at contiguous copies of `<script>` into pieces free of `<script>`, those pieces joined
   * in order are cut at copies of `</script>` into pieces free of `</script>`, and the stored
   * text is those last pieces joined in order.
   */
  lemma StripRemovesOnlyTags(s: string) returns (opens: seq<string>, closes: seq<string>)
    ensures |opens| >= 1 && s == Join(opens, ScriptOpen) && PiecesFree(opens, ScriptOpen)
    ensures |closes| >= 1 && Concat(opens) == Join(closes, ScriptClose) && PiecesFree(closes, ScriptClose)
    ensures StripScriptTags(s) == Concat(closes)
  {
    assert |ScriptOpen| == 8 && |ScriptClose| == 9;
    opens := CutsAtOccurrences(s, ScriptOpen);
    closes := CutsAtOccurrences(RemoveAll(s, ScriptOpen), ScriptClose);
  }

  /** A prefix free of the pattern's first character is kept as it is. */
  lemma {:induction false} KeepsLeadingText(u: string, t: string, pat: string)
    requires pat != [] && pat[0] !in u
    ensures RemoveAll(u + t, pat) == u + RemoveAll(t, pat)
    decreases |u|
  {
    if u == [] {
      assert u + t == t;
    } else {
      ConsOfConcat(u, t);
      assert pat[0] !in u[1..] by { assert forall c :: c in u[1..] ==> c in u; }
      KeepsFirstOnMismatch(u + t, pat, 0);
      KeepsLeadingText(u[1..], t, pat);
    }
  }

  /** Taking a concatenation with a non-empty left part apart at its first element. */
  lemma ConsOfConcat(u: string, t: string)
    requires u != []
    ensures (u + t)[0] == u[0] && (u + t)[1..] == u[1..] + t
    ensures u + t == [u[0]] + (u[1..] + t)
  {
  }

  /** A pattern at the front is removed and the scan resumes right after it. */
  lemma DropsLeadingTag(pat: string, t: string)
    requires pat != []
    ensures RemoveAll(pat + t, pat) == RemoveAll(t, pat)
  {
    assert (pat + t)[..|pat|] == pat;
    assert (pat + t)[|pat|..] == t;
  }

  /** A mismatch at position `j` of the front keeps the first character. */
  lemma KeepsFirstOnMismatch(s: string, pat: string, j: nat)
    requires pat != [] && 0 < |s| && j < |pat| && j < |s| && s[j] != pat[j]
    ensures RemoveAll(s, pat) == [s[0]] + RemoveAll(s[1..], pat)
  {
    if |s| >= |pat| {
      assert s[..|pat|][j] != pat[j];
      assert !StartsWith(s, pat);
    }
  }

  /** Text shorter than the pattern is kept as it is. */
  lemma KeepsShortText(t: string, pat: string)
    requires |t| < |pat|
    ensures RemoveAll(t, pat) == t
  {
  }

  /**
   * The removal is not recursive: when the pattern's first character does not recur in it,
   * splitting the pattern at any inner position around a second copy gives text from which
   * one pass reassembles the pattern.
   */
  lemma AssembledTagSurvives(pat: string, k: nat)
    requires 0 < k < |pat| && pat[0] !in pat[1..]
    ensures RemoveAll(pat[..k] + pat + pat[k..], pat) == pat
  {
    var s := pat[..k] + pat + pat[k..];
    AssembledTagShape(pat, k, s);
    KeepsFirstOnMismatch(s, pat, k);
    AssembledTagTail(pat, k, s[1..]);
    assert pat == [pat[0]] + pat[1..];
  }

  /** Where the characters of `pat[..k] + pat + pat[k..]` come from. */
  lemma AssembledTagShape(pat: string, k: nat, s: string)
    requires 0 < k < |pat| && pat[0] !in pat[1..]
    requires s == pat[..k] + pat + pat[k..]
    ensures s[0] == pat[0] && s[k] == pat[0] && s[k] != pat[k]
    ensures s[1..] == pat[1..k] + (pat + pat[k..])
  {
    assert pat[k] in pat[1..];
    TailOfConcat(pat[..k], pat + pat[k..]);
    assert pat[..k][1..] == pat[1..k];
  }

  /** The scan of `AssembledTagSurvives` after its first character. */
  lemma AssembledTagTail(pat: string, k: nat, t: string)
    requires 0 < k < |pat| && pat[0] !in pat[1..]
    requires t == pat[1..k] + (pat + pat[k..])
    ensures RemoveAll(t, pat) == pat[1..]
  {
    assert pat[1..k] == pat[1..][..k - 1];
    KeepsLeadingText(pat[1..k], pat + pat[k..], pat);
    DropsLeadingTag(pat, pat[k..]);
    KeepsShortText(pat[k..], pat);
    assert pat[1..k] + pat[k..] == pat[1..];
  }

  /** The concrete case: `<scr<script>ipt>` comes out as `<script>`, which still holds the tag. */
  lemma StripIsNotRecursive(s: string)
    requires s == "<scr<script>ipt>"
    ensures StripScriptTags(s) == "<script>"
    ensures Contains(StripScriptTags(s), ScriptOpen)
  {
    TagFacts();
    AssembledTagSurvives(ScriptOpen, 4);
    SplitTagLiteral(s);
    KeepsShortText(ScriptOpen, ScriptClose);
    assert OccursAt(ScriptOpen, ScriptOpen, 0);
  }

  /** `<scr<script>ipt>` is the opening tag split after its fourth character around a copy. */
  lemma SplitTagLiteral(s: string)
    requires s == "<scr<script>ipt>"
    ensures s == ScriptOpen[..4] + ScriptOpen + ScriptOpen[4..]
  {
    assert ScriptOpen[..4] == "<scr" && ScriptOpen[4..] == "ipt>";
  }

  /** A tag after text free of the tag's first character is removed and the text kept. */
  lemma RemovesTagAfterText(before: string, pat: string, rest: string)
    requires pat != [] && pat[0] !in before
    ensures RemoveAll(before + (pat + rest), pat) == before + RemoveAll(rest, pat)
  {
    KeepsLeadingText(before, pat + rest, pat);
    DropsLeadingTag(pat, rest);
  }

  /** Text free of the pattern's first character is kept as it is. */
  lemma KeepsPlainText(t: string, pat: string)
    requires pat != [] && pat[0] !in t
    ensures RemoveAll(t, pat) == t
  {
    KeepsLeadingText(t, [], pat);
    assert t + [] == t;
  }

  /** The facts about the two tags' characters that the examples below rely on. */
  lemma TagFacts()
    ensures |ScriptOpen| == 8 && |ScriptClose| == 9
    ensures ScriptClose[0] == ScriptOpen[0] && ScriptClose[1] != ScriptOpen[1]
    ensures ScriptOpen[0] !in ScriptOpen[1..] && ScriptOpen[0] !in ScriptClose[1..]
    ensures ScriptClose[5] != ScriptOpen[0]
  {
    assert ScriptOpen[1..] == "script>";
    assert ScriptClose[1..] == "/script>";
  }

  /** Text that starts like the pattern but differs at its second character is stepped over. */
  lemma KeepsNearMiss(q: string, rest: string, pat: string)
    requires 1 < |q| && 1 < |pat| && q[1] != pat[1] && pat[0] !in q[1..]
    ensures RemoveAll(q + rest, pat) == q + RemoveAll(rest, pat)
  {
    KeepsFirstOnMismatch(q + rest, pat, 1);
    TailOfConcat(q, rest);
    KeepsLeadingText(q[1..], rest, pat);
    assert q == [q[0]] + q[1..];
  }

  /**
   * Splitting `q` after position `k` around a copy of `pat`, where `q` starts like `pat`:
   * the `pat` pass removes the copy and so assembles `q`.
   */
  lemma SplitTextReassembles(q: string, k: nat, pat: string)
    requires 1 < k < |q| && 1 < |pat| && q[1] != pat[1] && pat[0] !in q[1..] && |q| - k < |pat|
    ensures RemoveAll(q[..k] + pat + q[k..], pat) == q
  {
    var lead := q[1..k];
    assert q[..k] + pat + q[k..] == q[..k] + (pat + q[k..]);
    assert q[..k][0] == q[0] && q[..k][1] == q[1] && q[..k][1..] == lead;
    KeepsFirstOfConcat(q[..k], pat + q[k..], pat);
    assert lead == q[1..][..k - 1];
    RemovesTagAfterText(lead, pat, q[k..]);
    KeepsShortText(q[k..], pat);
    SplitAt(q, k);
  }

  /** A front part that differs from the pattern at its second character keeps its first one. */
  lemma KeepsFirstOfConcat(u: string, t: string, pat: string)
    requires 1 < |u| && 1 < |pat| && u[1] != pat[1]
    ensures RemoveAll(u + t, pat) == [u[0]] + RemoveAll(u[1..] + t, pat)
  {
    ConsOfConcat(u, t);
    KeepsFirstOnMismatch(u + t, pat, 1);
  }

  /** `q` taken apart at its first character and at position `k`. */
  lemma SplitAt(q: string, k: nat)
    requires 1 <= k <= |q|
    ensures q == [q[0]] + (q[1..k] + q[k..])
  {
    assert q[1..] == q[1..k] + q[k..];
  }

  /** Concatenation regrouped to the right. */
  lemma Regroup(a: string, b: string, c: string, d: string, e: string)
    ensures a + b + c + d + e == a + (b + (c + (d + e)))
    ensures a + (c + (d + e)) == (a + c) + (d + e)
  {
  }

  /**
   * The same split text holds no `q` yet: the `q` pass meets `pat` where `q` goes on
   * differently, and `pat` differs from `q` at its second character.
   */
  lemma SplitTextHoldsNoMatch(q: string, k: nat, pat: string)
    requires 0 < k < |q| && 1 < |pat| && q[0] !in q[1..] && q[k] != pat[0]
    requires pat[1] != q[1] && q[0] !in pat[1..]
    ensures RemoveAll(q[..k] + pat + q[k..], q) == q[..k] + pat + q[k..]
  {
    var s := q[..k] + pat + q[k..];
    assert s == q[..k] + (pat + q[k..]);
    assert s[k] == pat[0];
    KeepsFirstOnMismatch(s, q, k);
    TailOfConcat(q[..k], pat + q[k..]);
    assert q[..k][1..] == q[1..k] == q[1..][..k - 1];
    KeepsLeadingText(q[1..k], pat + q[k..], q);
    KeepsNearMiss(pat, q[k..], q);
    KeepsShortText(q[k..], q);
    assert q[..k] == [q[0]] + q[1..k];
  }

  /**
   * The order of the passes matters: on `</scr<script>ipt>` the source's order leaves nothing,
   * while removing `</script>` first would leave `</script>`.
   */
  lemma StripOrderMatters(s: string)
    requires s == "</scr<script>ipt>"
    ensures StripScriptTags(s) == ""
    ensures RemoveAll(RemoveAll(s, ScriptClose), ScriptOpen) == "</script>"
  {
    TagFacts();
    assert s == ScriptClose[..5] + ScriptOpen + ScriptClose[5..];
    SplitTextReassembles(ScriptClose, 5, ScriptOpen);
    SplitTextHoldsNoMatch(ScriptClose, 5, ScriptOpen);
    DropsLeadingTag(ScriptClose, "");
  }

  /** The `<script>` pass over a script element with plain text around it and inside it. */
  lemma OpenPassAroundText(before: string, body: string, after: string)
    requires ScriptOpen[0] !in before && ScriptOpen[0] !in body && ScriptOpen[0] !in after
    ensures RemoveAll(before + ScriptOpen + body + ScriptClose + after, ScriptOpen)
            == (before + body) + (ScriptClose + after)
  {
    var rest := body + (ScriptClose + after);
    Regroup(before, ScriptOpen, body, ScriptClose, after);
    RemovesTagAfterText(before, ScriptOpen, rest);
    assert RemoveAll(rest, ScriptOpen) == rest by {
      KeepsLeadingText(body, ScriptClose + after, ScriptOpen);
      TagFacts();
      KeepsNearMiss(ScriptClose, after, ScriptOpen);
      KeepsPlainText(after, ScriptOpen);
    }
  }

  /** Stripping a script element with plain text around it and inside it keeps exactly the text. */
  lemma StripsAroundText(before: string, body: string, after: string)
    requires ScriptOpen[0] !in before && ScriptOpen[0] !in body && ScriptOpen[0] !in after
    ensures StripScriptTags(before + ScriptOpen + body + ScriptClose + after) == before + body + after
  {
    OpenPassAroundText(before, body, after);
    assert ScriptClose[0] == ScriptOpen[0] && ScriptOpen[0] !in before + body;
    RemovesTagAfterText(before + body, ScriptClose, after);
    KeepsPlainText(after, ScriptClose);
  }

  /** The concrete case: `hello<script>alert(1)</script>world` is stored as `helloalert(1)world`. */
  lemma StripKeepsScriptBody(s: string)
    requires s == "hello" + "<script>" + "alert(1)" + "</script>" + "world"
    ensures StripScriptTags(s) == "hello" + "alert(1)" + "world"
  {
    StripsAroundText("hello", "alert(1)", "world");
  }
}
