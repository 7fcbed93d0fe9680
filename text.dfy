/** Case-insensitive substring matching, the meaning given here to the ORM's
    `icontains` lookup: both sides are lower-cased (ASCII letters only) and the
    term must occur as a contiguous run of the name. */
module Text {

  /** ASCII lower-casing of one character; every other character is kept. */
  function ToLower(c: char): char
  {
    if 'A' <= c <= 'Z' then (c as int + 32) as char else c
  }

  /** Lower-cases a whole string, character by character. */
  function Lowered(s: string): (r: string)
    ensures |r| == |s|
    ensures forall i :: 0 <= i < |s| ==> r[i] == ToLower(s[i])
  {
    if s == [] then [] else [ToLower(s[0])] + Lowered(s[1..])
  }

  predicate StartsWith(s: string, p: string)
  {
    |p| <= |s| && s[..|p|] == p
  }

  /** `t` occurs in `s` at some offset (scanning from the left). */
  predicate Contains(s: string, t: string)
    decreases |s|
  {
    StartsWith(s, t) || (s != [] && Contains(s[1..], t))
  }

  /** `t` occurs in `s` starting at offset `i`. */
  predicate OccursAt(s: string, t: string, i: int)
  {
    0 <= i <= |s| - |t| && s[i..i + |t|] == t
  }

  /** The scan agrees with the positional definition of "substring". */
  lemma {:induction false} ContainsIff(s: string, t: string)
    ensures Contains(s, t) <==> exists i :: OccursAt(s, t, i)
    decreases |s|
  {
    if s == [] {
      if |t| == 0 {
        assert OccursAt(s, t, 0);
      }
    } else {
      ContainsIff(s[1..], t);
      if Contains(s, t) {
        if StartsWith(s, t) {
          assert OccursAt(s, t, 0);
        } else {
          var i :| OccursAt(s[1..], t, i);
          assert s[i + 1..i + 1 + |t|] == s[1..][i..i + |t|];
          assert OccursAt(s, t, i + 1);
        }
      }
      if exists i :: OccursAt(s, t, i) {
        var i :| OccursAt(s, t, i);
        if i > 0 {
          assert s[1..][i - 1..i - 1 + |t|] == s[i..i + |t|];
          assert OccursAt(s[1..], t, i - 1);
        }
      }
    }
  }

  /** Case-insensitive containment, as used by a `name__icontains` filter. */
  predicate IContains(name: string, term: string)
  {
    Contains(Lowered(name), Lowered(term))
  }

  /** The window of `name` at offset `i` equals `term` up to ASCII case. */
  predicate MatchesAt(name: string, term: string, i: int)
  {
    0 <= i <= |name| - |term| &&
    forall j :: 0 <= j < |term| ==> ToLower(name[i + j]) == ToLower(term[j])
  }

  lemma LoweredOccursAt(name: string, term: string, i: int)
    ensures OccursAt(Lowered(name), Lowered(term), i) <==> MatchesAt(name, term, i)
  {
    var ln, lt := Lowered(name), Lowered(term);
    if 0 <= i <= |name| - |term| {
      if OccursAt(ln, lt, i) {
        forall j | 0 <= j < |term| ensures ToLower(name[i + j]) == ToLower(term[j]) {
          assert ln[i..i + |lt|][j] == ln[i + j];
        }
      }
      if MatchesAt(name, term, i) {
        assert ln[i..i + |lt|] == lt;
      }
    }
  }

  /** What `icontains` promises: some window of the name equals the term up to
      ASCII case. */
  lemma IContainsIff(name: string, term: string)
    ensures IContains(name, term) <==> exists i :: MatchesAt(name, term, i)
  {
    ContainsIff(Lowered(name), Lowered(term));
    if IContains(name, term) {
      var i :| OccursAt(Lowered(name), Lowered(term), i);
      LoweredOccursAt(name, term, i);
    }
    if exists i :: MatchesAt(name, term, i) {
      var i :| MatchesAt(name, term, i);
      LoweredOccursAt(name, term, i);
    }
  }

  /** The empty search term matches every name. */
  lemma EmptyTermMatchesAll(name: string)
    ensures IContains(name, "")
  {
    assert StartsWith(Lowered(name), Lowered(""));
  }
}
