/** Splitting and joining text at a separator. */
module Strings {

  /** The pieces between separators, as `str::split` yields them: one more than there are
      separators, so the empty text has one empty piece. */
  function Split(text: string, separator: char): (pieces: seq<string>)
    ensures pieces != []
    ensures separator !in text ==> pieces == [text]
  {
    if text == "" then [""]
    else
      var rest := Split(text[1..], separator);
      if text[0] == separator then [""] + rest
      else
        assert separator !in text ==> separator !in text[1..] && [text[0]] + text[1..] == text;
        Prepend(text[0], rest)
  }

  /** Puts a character in front of the first piece. */
  function Prepend(c: char, pieces: seq<string>): (r: seq<string>)
    requires pieces != []
    ensures r != []
  {
    [[c] + pieces[0]] + pieces[1..]
  }

  lemma PrependConcat(c: char, a: seq<string>, b: seq<string>)
    requires a != []
    ensures Prepend(c, a + b) == Prepend(c, a) + b
  {
  }

  function Join(pieces: seq<string>, separator: char): string
    requires pieces != []
  {
    if |pieces| == 1 then pieces[0]
    else pieces[0] + [separator] + Join(pieces[1..], separator)
  }

  lemma {:induction false} JoinOneMore(pieces: seq<string>, last: string, separator: char)
    requires pieces != []
    ensures Join(pieces + [last], separator) == Join(pieces, separator) + [separator] + last
  {
    var longer := pieces + [last];
    assert longer[1..] == pieces[1..] + [last];
    if |pieces| > 1 {
      JoinOneMore(pieces[1..], last, separator);
    } else {
      assert longer[1..] == [last];
      assert Join(longer[1..], separator) == last;
    }
  }

  lemma {:induction false} SplitConcat(a: string, b: string, separator: char)
    ensures Split(a + [separator] + b, separator) == Split(a, separator) + Split(b, separator)
  {
    hide Prepend;
    var whole := a + [separator] + b;
    if a == "" {
      assert whole[1..] == b;
    } else {
      SplitConcat(a[1..], b, separator);
      assert whole[1..] == a[1..] + [separator] + b;
      PrependConcat(a[0], Split(a[1..], separator), Split(b, separator));
      assert [""] + (Split(a[1..], separator) + Split(b, separator))
             == ([""] + Split(a[1..], separator)) + Split(b, separator);
    }
  }

  /** All the pieces of several texts, in order. */
  function SplitAll(texts: seq<string>, separator: char): seq<string> {
    if texts == [] then [] else Split(texts[0], separator) + SplitAll(texts[1..], separator)
  }

  /** Joining texts and splitting again gives the pieces of each, in order. */
  lemma {:induction false} SplitJoin(texts: seq<string>, separator: char)
    requires texts != []
    ensures Split(Join(texts, separator), separator) == SplitAll(texts, separator)
  {
    if |texts| == 1 {
      assert SplitAll(texts[1..], separator) == [];
    } else {
      SplitConcat(texts[0], Join(texts[1..], separator), separator);
      SplitJoin(texts[1..], separator);
    }
  }

  lemma {:induction false} SplitAllPlain(texts: seq<string>, separator: char)
    requires forall k :: 0 <= k < |texts| ==> separator !in texts[k]
    ensures SplitAll(texts, separator) == texts
  {
    if texts != [] {
      SplitAllPlain(texts[1..], separator);
    }
  }

  function ExtendLast(pieces: seq<string>, text: string): seq<string>
    requires pieces != []
  {
    pieces[..|pieces| - 1] + [pieces[|pieces| - 1] + text]
  }

  lemma ExtendLastBlank(text: string)
    ensures ExtendLast([""], text) == [text]
  {
    assert "" + text == text;
  }

  lemma ExtendLastPrepend(c: char, pieces: seq<string>, text: string)
    requires pieces != []
    ensures [""] + ExtendLast(pieces, text) == ExtendLast([""] + pieces, text)
    ensures Prepend(c, ExtendLast(pieces, text)) == ExtendLast(Prepend(c, pieces), text)
  {
    if |pieces| == 1 {
      assert [c] + (pieces[0] + text) == ([c] + pieces[0]) + text;
    }
  }

  /** Appending text without separators extends the last piece. */
  lemma {:induction false} SplitAppend(a: string, b: string, separator: char)
    requires separator !in b
    ensures Split(a + b, separator) == ExtendLast(Split(a, separator), b)
  {
    hide ExtendLast, Prepend;
    if a == "" {
      assert a + b == b;
      ExtendLastBlank(b);
    } else {
      var whole := a + b;
      SplitAppend(a[1..], b, separator);
      assert whole[1..] == a[1..] + b;
      ExtendLastPrepend(a[0], Split(a[1..], separator), b);
    }
  }

  /** No piece holds the separator. */
  lemma {:induction false} SplitPieces(text: string, separator: char, k: nat)
    requires k < |Split(text, separator)|
    ensures separator !in Split(text, separator)[k]
  {
    if text != "" {
      var rest := Split(text[1..], separator);
      if text[0] != separator {
        SplitPieces(text[1..], separator, k);
      } else if k > 0 {
        SplitPieces(text[1..], separator, k - 1);
      }
    }
  }

  // ----- the order of names, by code point -----

  predicate NameLeq(a: string, b: string) {
    a == "" || (b != "" && (a[0] < b[0] || (a[0] == b[0] && NameLeq(a[1..], b[1..]))))
  }

  /** Two names part at `k`, where the first has the lower character. */
  ghost predicate PartAt(a: string, b: string, k: nat) {
    k < |a| && k < |b| && a[..k] == b[..k] && a[k] < b[k]
  }

  lemma PartLater(a: string, b: string, k: nat)
    requires a != "" && b != "" && a[0] == b[0]
    ensures PartAt(a, b, k + 1) <==> PartAt(a[1..], b[1..], k)
  {
    if k < |a| - 1 && k < |b| - 1 {
      assert a[..k + 1] == [a[0]] + a[1..][..k] && b[..k + 1] == [b[0]] + b[1..][..k];
      assert a[..k + 1][1..] == a[1..][..k] && b[..k + 1][1..] == b[1..][..k];
    }
  }

  lemma PartFirst(a: string, b: string, k: nat)
    requires a != "" && b != ""
    ensures PartAt(a, b, 0) <==> a[0] < b[0]
    ensures PartAt(a, b, k) && k > 0 ==> a[0] == b[0]
  {
    assert PartAt(a, b, k) && k > 0 ==> a[..k][0] == a[0] && b[..k][0] == b[0];
  }

  /** Names are in order when one starts the other, or the first characters that differ are. */
  lemma {:induction false} NameOrder(a: string, b: string)
    ensures NameLeq(a, b) <==> a <= b || exists k: nat :: PartAt(a, b, k)
  {
    if a != "" && b != "" {
      hide PartAt;
      PartFirst(a, b, 0);
      if a[0] == b[0] {
        NameOrder(a[1..], b[1..]);
        assert a == [a[0]] + a[1..] && b == [b[0]] + b[1..];
        if k: nat :| PartAt(a, b, k) {
          PartLater(a, b, k - 1);
        }
        var c, d := a[1..], b[1..];
        if k: nat :| PartAt(c, d, k) {
          PartLater(a, b, k);
        }
      } else if k: nat :| PartAt(a, b, k) {
        PartFirst(a, b, k);
      }
    }
  }

  lemma {:induction false} NameTotal(a: string, b: string)
    ensures NameLeq(a, b) || NameLeq(b, a)
    ensures NameLeq(a, b) && NameLeq(b, a) ==> a == b
  {
    if a != "" && b != "" && a[0] == b[0] {
      NameTotal(a[1..], b[1..]);
      assert a == [a[0]] + a[1..] && b == [b[0]] + b[1..];
    }
  }

  lemma {:induction false} NameTransitive(a: string, b: string, c: string)
    requires NameLeq(a, b) && NameLeq(b, c)
    ensures NameLeq(a, c)
  {
    if a != "" && c != "" && a[0] == b[0] == c[0] {
      NameTransitive(a[1..], b[1..], c[1..]);
    }
  }
}
