/** Go's `strings.Fields`: the maximal runs of non-space characters, which
    the size gate uses as its token estimate. */
module Words {
  import opened Strings

  /** A field: a non-empty run of non-space characters. */
  predicate IsField(w: string) {
    w != [] && forall k | 0 <= k < |w| :: !IsSpace(w[k])
  }

  /** The length of the run of non-space characters at the front of `s`. */
  function WordLen(s: string): (n: nat)
    ensures n <= |s|
    ensures forall k | 0 <= k < n :: !IsSpace(s[k])
    ensures n == |s| || IsSpace(s[n])
  {
    if s == [] || IsSpace(s[0]) then 0 else 1 + WordLen(s[1..])
  }

  /** `strings.Fields(s)`. */
  function Fields(s: string): (ws: seq<string>)
    ensures forall w | w in ws :: IsField(w)
    decreases |s|
  {
    if s == [] then []
    else if IsSpace(s[0]) then Fields(s[1..])
    else
      var n := WordLen(s);
      assert IsField(s[..n]);
      [s[..n]] + Fields(s[n..])
  }

  /** The size gate's token estimate: `len(strings.Fields(prompt))`. */
  function TokenCount(s: string): nat {
    |Fields(s)|
  }

  /** Appending one character adds a field exactly when it is a non-space
      character that follows a space or the start of the text. */
  lemma {:induction false} FieldsSnoc(p: string, c: char)
    ensures |Fields(p + [c])| == |Fields(p)|
      + (if !IsSpace(c) && (p == [] || IsSpace(p[|p| - 1])) then 1 else 0)
    decreases |p|
  {
    var s := p + [c];
    if p == [] {
      assert s == [c];
      if !IsSpace(c) {
        assert WordLen(s) == 1;
        assert s[1..] == [];
      } else {
        assert s[1..] == [];
      }
    } else if IsSpace(p[0]) {
      assert s[1..] == p[1..] + [c];
      FieldsSnoc(p[1..], c);
      if |p| > 1 {
        assert p[1..][|p| - 2] == p[|p| - 1];
      }
    } else {
      var m := WordLen(p);
      if m < |p| {
        assert WordLen(s) == m by {
          var n := WordLen(s);
          assert s[m] == p[m];
        }
        assert s[m..] == p[m..] + [c];
        FieldsSnoc(p[m..], c);
        assert p[m..][|p| - m - 1] == p[|p| - 1];
      } else {
        assert !IsSpace(p[|p| - 1]);
        if !IsSpace(c) {
          assert WordLen(s) == |s|;
          assert s[|s|..] == [];
        } else {
          assert WordLen(s) == |p| by {
            var n := WordLen(s);
            assert s[|p|] == c;
          }
          assert s[|p|..] == [c];
          assert Fields([c]) == [] by {
            assert [c][1..] == [];
          }
        }
        assert p[|p|..] == [];
      }
    }
  }

  /** Counts the fields of `s` in one left-to-right pass: a field starts at
      every non-space character that follows a space or the start of the
      text. */
  method CountTokens(s: string) returns (n: nat)
    ensures n == TokenCount(s)
  {
    n := 0;
    var i := 0;
    while i < |s|
      invariant 0 <= i <= |s|
      invariant n == |Fields(s[..i])|
    {
      FieldsSnoc(s[..i], s[i]);
      assert s[..i + 1] == s[..i] + [s[i]];
      if !IsSpace(s[i]) && (i == 0 || IsSpace(s[i - 1])) {
        n := n + 1;
      }
      i := i + 1;
    }
    assert s[..i] == s;
  }

  /** Joining fields with single spaces and splitting again gives back the
      same fields. */
  lemma {:induction false} FieldsOfJoin(ws: seq<string>)
    requires forall w | w in ws :: IsField(w)
    ensures Fields(Join(ws, " ")) == ws
  {
    if |ws| == 1 {
      var w := ws[0];
      assert w in ws;
      FieldsOfWord(w, "");
      assert w + "" == w;
    } else if |ws| > 1 {
      var w, tail := ws[0], ws[1..];
      assert w in ws;
      assert forall v | v in tail :: v in ws;
      FieldsOfJoin(tail);
      var rest := Join(tail, " ");
      assert Join(ws, " ") == w + (" " + rest);
      FieldsOfWord(w, " " + rest);
      assert (" " + rest)[1..] == rest;
      assert ws == [w] + tail;
    }
  }

  /** A field followed by nothing or by a space-led text is the first field. */
  lemma FieldsOfWord(w: string, t: string)
    requires IsField(w)
    requires t == [] || IsSpace(t[0])
    ensures Fields(w + t) == [w] + Fields(t)
    ensures t != [] ==> Fields(t) == Fields(t[1..])
  {
    var s := w + t;
    WordLenOf(w, t);
    assert s[..|w|] == w;
    assert s[|w|..] == t;
  }

  /** A run of non-space characters followed by nothing or by a space is
      measured exactly. */
  lemma {:induction false} WordLenOf(w: string, t: string)
    requires forall k | 0 <= k < |w| :: !IsSpace(w[k])
    requires t == [] || IsSpace(t[0])
    ensures WordLen(w + t) == |w|
  {
    if w == [] {
      assert w + t == t;
    } else {
      assert (w + t)[0] == w[0];
      assert (w + t)[1..] == w[1..] + t;
      WordLenOf(w[1..], t);
    }
  }
}
