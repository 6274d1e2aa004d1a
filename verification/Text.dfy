/** The string operations the provisioner leans on: the rewrite of a MAC into a file-name id,
    splitting and joining on a separator, and cutting a text into lines. */
module Text {

  datatype Option<+T> = None | Some(value: T) {
    predicate IsFailure() { None? }

    function PropagateFailure<U>(): Option<U>
      requires None?
    {
      None
    }

    function Extract(): T
      requires Some?
    {
      value
    }
  }

  // ---------- MAC to id ----------

  /** Every ':' becomes '-'. */
  function MacAsID(m: string): string
  {
    seq(|m|, i requires 0 <= i < |m| => if m[i] == ':' then '-' else m[i])
  }

  predicate DashFree(m: string)
  {
    '-' !in m
  }

  predicate SameUpToSeparators(a: string, b: string)
  {
    && |a| == |b|
    && forall i :: 0 <= i < |a| ==> a[i] == b[i] || (a[i] in ":-" && b[i] in ":-")
  }

  /** The rewrite is lossy: this says exactly which MACs it confuses. */
  lemma {:induction false} IDCollision(a: string, b: string)
    ensures MacAsID(a) == MacAsID(b) <==> SameUpToSeparators(a, b)
  {
    if MacAsID(a) == MacAsID(b) {
      forall i | 0 <= i < |a|
        ensures a[i] == b[i] || (a[i] in ":-" && b[i] in ":-")
      {
        assert MacAsID(a)[i] == MacAsID(b)[i];
      }
    }
  }

  lemma {:induction false} IDShape(a: string)
    ensures |MacAsID(a)| == |a|
    ensures MacAsID(MacAsID(a)) == MacAsID(a)
    ensures MacAsID(a) == a <==> ':' !in a
  {
    if MacAsID(a) == a {
      forall i | 0 <= i < |a|
        ensures a[i] != ':'
      {
        assert MacAsID(a)[i] == a[i];
      }
    }
  }

  lemma {:induction false} IDInjective(a: string, b: string)
    requires DashFree(a) && DashFree(b)
    requires MacAsID(a) == MacAsID(b)
    ensures a == b
  {
    IDCollision(a, b);
    assert forall i :: 0 <= i < |a| ==> a[i] == b[i];
  }

  // ---------- Split and join ----------

  function Split(s: string, sep: char): (fields: seq<string>)
    ensures |fields| >= 1
  {
    if s == "" then [""]
    else if s[0] == sep then [""] + Split(s[1..], sep)
    else
      var rest := Split(s[1..], sep);
      [[s[0]] + rest[0]] + rest[1..]
  }

  function Join(fields: seq<string>, sep: char): string
  {
    if fields == [] then ""
    else if |fields| == 1 then fields[0]
    else fields[0] + [sep] + Join(fields[1..], sep)
  }

  lemma {:induction false} SplitConcat(a: string, b: string, sep: char)
    ensures Split(a + [sep] + b, sep) == Split(a, sep) + Split(b, sep)
  {
    var s := a + [sep] + b;
    if a == "" {
      assert s[1..] == b;
    } else {
      assert s[1..] == a[1..] + [sep] + b;
      SplitConcat(a[1..], b, sep);
    }
  }

  lemma {:induction false} SplitFree(f: string, sep: char)
    requires sep !in f
    ensures Split(f, sep) == [f]
  {
    if f != "" {
      SplitFree(f[1..], sep);
      assert [f[0]] + f[1..] == f;
    }
  }

  lemma {:induction false} SplitPiecesFree(s: string, sep: char)
    ensures forall f :: f in Split(s, sep) ==> sep !in f
  {
    if s != "" {
      SplitPiecesFree(s[1..], sep);
    }
  }

  lemma {:induction false} JoinOfSplit(s: string, sep: char)
    ensures Join(Split(s, sep), sep) == s
  {
    if s != "" {
      JoinOfSplit(s[1..], sep);
      var rest := Split(s[1..], sep);
      if s[0] == sep {
        assert Split(s, sep)[1..] == rest;
      } else {
        assert Split(s, sep)[1..] == rest[1..];
      }
    }
  }

  /** Splitting undoes joining exactly on the lists whose fields avoid the separator. */
  lemma {:induction false} SplitOfJoin(fields: seq<string>, sep: char)
    requires fields != []
    ensures Split(Join(fields, sep), sep) == fields <==> (forall f :: f in fields ==> sep !in f)
  {
    SplitPiecesFree(Join(fields, sep), sep);
    if forall f :: f in fields ==> sep !in f {
      SplitOfJoinFree(fields, sep);
    }
  }

  lemma {:induction false} SplitOfJoinFree(fields: seq<string>, sep: char)
    requires fields != []
    requires forall f :: f in fields ==> sep !in f
    ensures Split(Join(fields, sep), sep) == fields
  {
    SplitFree(fields[0], sep);
    if |fields| > 1 {
      SplitConcat(fields[0], Join(fields[1..], sep), sep);
      SplitOfJoinFree(fields[1..], sep);
    }
  }

  lemma {:induction false} SplitWidth(s: string, sep: char)
    ensures |Split(s, sep)| == 1 + multiset(s)[sep]
  {
    if s != "" {
      assert s == [s[0]] + s[1..];
      SplitWidth(s[1..], sep);
    }
  }

  lemma SplitStep(s: string, sep: char)
    requires s != ""
    ensures var rest, p := Split(s[1..], sep), Split(s, sep);
            && rest != []
            && p == if s[0] == sep then [""] + rest else [[s[0]] + rest[0]] + rest[1..]
  {
  }

  /** The last piece, seen from a list with one more piece in front. */
  lemma LastOfCons(x: string, rest: seq<string>, f: string)
    requires rest != []
    ensures var p := [x] + rest;
            p[..|p| - 1] + [p[|p| - 1] + f] == [x] + (rest[..|rest| - 1] + [rest[|rest| - 1] + f])
  {
  }

  /** The last piece, seen from a list whose first piece has grown in front. */
  lemma LastOfGrown(c: char, rest: seq<string>, f: string)
    requires rest != []
    ensures var p := [[c] + rest[0]] + rest[1..];
            var more := rest[..|rest| - 1] + [rest[|rest| - 1] + f];
            p[..|p| - 1] + [p[|p| - 1] + f] == [[c] + more[0]] + more[1..]
  {
    var n := |rest|;
    var more := rest[..n - 1] + [rest[n - 1] + f];
    if n == 1 {
      assert [c] + (rest[0] + f) == [c] + rest[0] + f;
    } else {
      assert more[1..] == rest[1..n - 1] + [rest[n - 1] + f];
    }
  }

  lemma {:induction false} SplitAppendFree(s: string, f: string, sep: char)
    requires sep !in f
    ensures var p := Split(s, sep);
            Split(s + f, sep) == p[..|p| - 1] + [p[|p| - 1] + f]
  {
    hide Split;
    if s == "" {
      SplitEmpty(sep);
      assert s + f == f;
      SplitFree(f, sep);
      assert [""][..0] + ["" + f] == [f];
    } else {
      assert (s + f)[1..] == s[1..] + f;
      SplitAppendFree(s[1..], f, sep);
      SplitStep(s, sep);
      SplitStep(s + f, sep);
      LastOfCons("", Split(s[1..], sep), f);
      LastOfGrown(s[0], Split(s[1..], sep), f);
    }
  }

  lemma SplitEmpty(sep: char)
    ensures Split("", sep) == [""]
  {
  }

  // ---------- Lines ----------

  /** What a line scanner yields: the pieces between newlines, without an empty last one. */
  function Lines(text: string): seq<string>
  {
    var p := Split(text, '\n');
    if p[|p| - 1] == "" then p[..|p| - 1] else p
  }

  /** The lines after the header, which is skipped whatever it holds. */
  function DataLines(text: string): seq<string>
  {
    if Lines(text) == [] then [] else Lines(text)[1..]
  }

  predicate EndsWithNewline(text: string)
  {
    text != "" && text[|text| - 1] == '\n'
  }

  lemma {:induction false} LastPiece(s: string, sep: char)
    ensures var p := Split(s, sep);
            p[|p| - 1] == "" <==> s == "" || s[|s| - 1] == sep
  {
    if s != "" {
      LastPiece(s[1..], sep);
      var rest := Split(s[1..], sep);
    }
  }

  /** Appending a newline-terminated line to the file adds exactly that data line precisely
      when the file already ended in a newline: otherwise it is glued to the last line, or
      becomes the header. */
  lemma {:induction false} AppendAddsLineIff(text: string, line: string)
    requires '\n' !in line
    ensures DataLines(text + line + "\n") == DataLines(text) + [line] <==> EndsWithNewline(text)
  {
    var p := Split(text, '\n');
    var q := Split(text + line, '\n');
    SplitAppendFree(text, line, '\n');
    assert q == p[..|p| - 1] + [p[|p| - 1] + line];
    SplitConcat(text + line, "", '\n');
    assert text + line + "\n" == text + line + ['\n'] + "";
    assert Split(text + line + "\n", '\n') == q + [""];
    assert Lines(text + line + "\n") == q;
    LastPiece(text, '\n');
    if EndsWithNewline(text) {
      assert Lines(text) == p[..|p| - 1];
      assert |p| > 1 by {
        var t0 := text[..|text| - 1];
        assert text == t0 + ['\n'] + "";
        SplitConcat(t0, "", '\n');
      }
      assert "" + line == line;
    } else if text == "" {
      assert q == [line] by { assert "" + line == line; }
    } else {
      assert Lines(text) == p && |q| == |p|;
    }
  }
}
