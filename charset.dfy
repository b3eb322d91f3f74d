/** The custom character-set input: on every edit the field's text is
    de-duplicated, keeping the first occurrence of each character, and the caret
    is moved back by the number of duplicates removed in front of it. */
module Charset {

  /** No character occurs twice. */
  predicate Distinct(s: string) {
    forall i, j :: 0 <= i < j < |s| ==> s[i] != s[j]
  }

  /** The set of characters occurring in s. */
  function Chars(s: string): set<char> {
    set c | c in s
  }

  /** The text with every repeated character dropped, first occurrences kept in
      order: what spreading the text into a Set and joining it back gives. */
  function Dedup(s: string): string {
    if s == [] then []
    else
      var kept := Dedup(s[..|s| - 1]);
      if s[|s| - 1] in kept then kept else kept + [s[|s| - 1]]
  }

  /** The position of the first occurrence of c in s. */
  function FirstIndex(s: string, c: char): (k: nat)
    requires c in s
    ensures k < |s| && s[k] == c && c !in s[..k]
  {
    if s[0] == c then 0
    else
      assert c in s[1..];
      1 + FirstIndex(s[1..], c)
  }

  lemma {:induction false} FirstIndexOfPrefix(s: string, t: string, c: char)
    requires c in s
    ensures c in s + t && FirstIndex(s + t, c) == FirstIndex(s, c)
  {
    if s[0] != c {
      assert (s + t)[1..] == s[1..] + t;
      assert c in s[1..];
      FirstIndexOfPrefix(s[1..], t, c);
    }
  }

  /** De-duplication keeps exactly the characters of its input. */
  lemma {:induction false} DedupSameChars(s: string)
    ensures forall c :: c in Dedup(s) <==> c in s
    ensures |Dedup(s)| <= |s|
  {
    if s != [] {
      var p := s[..|s| - 1];
      assert s == p + [s[|s| - 1]];
      DedupSameChars(p);
    }
  }

  /** The result never repeats a character. */
  lemma {:induction false} DedupDistinct(s: string)
    ensures Distinct(Dedup(s))
  {
    if s != [] {
      DedupDistinct(s[..|s| - 1]);
    }
  }

  /** The result lists characters in the order of their first occurrence in s. */
  lemma {:induction false} DedupFirstOccurrenceOrder(s: string)
    ensures forall c :: c in Dedup(s) ==> c in s
    ensures forall i, j :: 0 <= i < j < |Dedup(s)| ==>
              FirstIndex(s, Dedup(s)[i]) < FirstIndex(s, Dedup(s)[j])
  {
    DedupSameChars(s);
    if s != [] {
      var p, c := s[..|s| - 1], s[|s| - 1];
      assert s == p + [c];
      var r := Dedup(p);
      DedupFirstOccurrenceOrder(p);
      forall x | x in r ensures FirstIndex(s, x) == FirstIndex(p, x) {
        FirstIndexOfPrefix(p, [c], x);
      }
      if c !in r {
        DedupSameChars(p);
        assert c !in p;
        assert FirstIndex(s, c) == |p|;
        forall x | x in r ensures FirstIndex(s, x) < |p| {
          assert FirstIndex(p, x) < |p|;
        }
        assert Dedup(s) == r + [c];
      }
    }
  }

  /** A text without repeats is its own de-duplication. */
  lemma {:induction false} DedupOfDistinct(s: string)
    requires Distinct(s)
    ensures Dedup(s) == s
  {
    if s != [] {
      var p := s[..|s| - 1];
      DedupOfDistinct(p);
      assert s[|s| - 1] !in p;
      assert s == p + [s[|s| - 1]];
    }
  }

  /** De-duplicating twice is the same as de-duplicating once. */
  lemma DedupIdempotent(s: string)
    ensures Dedup(Dedup(s)) == Dedup(s)
  {
    DedupDistinct(s);
    DedupOfDistinct(Dedup(s));
  }

  /** The de-duplication of a prefix is a prefix of the de-duplication. */
  lemma {:induction false} DedupPrefix(s: string, k: nat)
    requires k <= |s|
    ensures |Dedup(s[..k])| <= |Dedup(s)|
    ensures Dedup(s[..k]) == Dedup(s)[..|Dedup(s[..k])|]
  {
    if k < |s| {
      DedupPrefix(s[..|s| - 1], k);
      assert s[..|s| - 1][..k] == s[..k];
    } else {
      assert s[..k] == s;
    }
  }

  /** The length of the de-duplication is the number of distinct characters. */
  lemma {:induction false} DedupCountsDistinct(s: string)
    ensures |Dedup(s)| == |Chars(s)|
  {
    if s != [] {
      var p, c := s[..|s| - 1], s[|s| - 1];
      assert s == p + [c];
      DedupCountsDistinct(p);
      DedupSameChars(p);
      assert Chars(s) == Chars(p) + {c};
      if c in p {
        assert c in Dedup(p) && Chars(s) == Chars(p);
      } else {
        assert c !in Dedup(p) && c !in Chars(p);
      }
    }
  }

  /** The caret position after de-duplication: the number of distinct
      characters in front of the old caret, counted with a set of characters
      already seen. */
  method CaretAfterDedup(val: string, selectionStart: nat) returns (newPos: nat)
    requires selectionStart <= |val|
    ensures newPos == |Chars(val[..selectionStart])|
    ensures newPos == |Dedup(val[..selectionStart])|
    ensures newPos <= selectionStart && newPos <= |Dedup(val)|
    ensures Dedup(val)[..newPos] == Dedup(val[..selectionStart])
  {
    newPos := 0;
    var seen: set<char> := {};
    for i := 0 to selectionStart
      invariant seen == Chars(val[..i])
      invariant newPos == |seen|
    {
      assert val[..i + 1] == val[..i] + [val[i]];
      assert Chars(val[..i + 1]) == seen + {val[i]};
      if val[i] !in seen {
        seen := seen + {val[i]};
        newPos := newPos + 1;
      }
    }
    DedupCountsDistinct(val[..selectionStart]);
    DedupSameChars(val[..selectionStart]);
    DedupPrefix(val, selectionStart);
  }

  /** The custom character-set text field. The browser creates it and keeps
      its selection inside the text, which is what Valid states. */
  class CustomCharsInput {
    var value: string
    var selectionStart: nat
    var selectionEnd: nat

    ghost predicate Valid()
      reads this
    {
      selectionStart <= selectionEnd <= |value|
    }

    /** The input handler: rewrite the field only when it holds a repeat, and
        then collapse the selection onto the remapped caret. */
    method OnInput()
      requires Valid()
      modifies this
      ensures Valid()
      ensures value == Dedup(old(value)) && Distinct(value)
      ensures old(value) == value ==>
                selectionStart == old(selectionStart) && selectionEnd == old(selectionEnd)
      ensures old(value) != value ==>
                selectionStart == selectionEnd == |Chars(old(value)[..old(selectionStart)])|
      ensures value[..selectionStart] == Dedup(old(value)[..old(selectionStart)])
    {
      var val := value;
      var unique := Dedup(val);
      DedupDistinct(val);
      if unique != val {
        value := unique;
        var newPos := CaretAfterDedup(val, selectionStart);
        selectionStart, selectionEnd := newPos, newPos;
      } else {
        assert Distinct(val[..selectionStart]);
        DedupOfDistinct(val[..selectionStart]);
      }
    }
  }

  /** The example of an edit leaving "aabc a" behind. */
  lemma DedupExample()
    ensures Dedup("aabc a") == "abc "
  {
    assert "a"[..0] == "" && Dedup("a") == "a";
    assert "aa"[..1] == "a" && Dedup("aa") == "a";
    assert "aab"[..2] == "aa" && Dedup("aab") == "ab";
    assert "aabc"[..3] == "aab" && Dedup("aabc") == "abc";
    assert "aabc "[..4] == "aabc" && Dedup("aabc ") == "abc ";
    assert "aabc a"[..5] == "aabc ";
  }
}
