/** The commit-message sanitiser of the commit extractor (`sanitize_message`). */
module Sanitizer {

  /**
   * Python's `s.replace(pat, rep)` for a non-empty pattern: scan left to right and replace
   * every non-overlapping occurrence of `pat` by `rep`. Every character of the result comes from
   * the input or from the replacement.
   */
  function Replace(s: string, pat: string, rep: string): (r: string)
    requires |pat| > 0
    ensures forall c :: c in r ==> c in s || c in rep
    decreases |s|
  {
    if |s| < |pat| then s
    else if s[..|pat|] == pat then rep + Replace(s[|pat|..], pat, rep)
    else [s[0]] + Replace(s[1..], pat, rep)
  }

  /**
   * The four passes of `sanitize_message`, in source order. Every character of the result is a
   * character of the message or the space that replaces a line break.
   */
  function SanitizeMessage(msg: string): (r: string)
    ensures forall c :: c in r ==> c in msg || c == ' '
  {
    var m1 := Replace(msg, "\r\n", " ");
    var m2 := Replace(m1, "\n", " ");
    var m3 := Replace(m2, ",", "");
    Replace(m3, "\"", "")
  }

  /** The characters a sanitised message may not contain. */
  predicate Forbidden(c: char)
  {
    c == '\n' || c == ',' || c == '"'
  }

  /**
   * An independent one-pass description of the sanitiser: a CR LF pair becomes one space, any
   * other line feed becomes a space, commas and double quotes vanish and every other character,
   * a bare carriage return included, is kept in place.
   */
  function SanitizeRef(s: string): string
    decreases |s|
  {
    if |s| == 0 then ""
    else if |s| >= 2 && s[0] == '\r' && s[1] == '\n' then " " + SanitizeRef(s[2..])
    else if s[0] == '\n' then " " + SanitizeRef(s[1..])
    else if s[0] == ',' || s[0] == '"' then SanitizeRef(s[1..])
    else [s[0]] + SanitizeRef(s[1..])
  }

  /** Replacing with something no longer than the pattern never makes the string longer. */
  lemma {:induction false} ReplaceNeverGrows(s: string, pat: string, rep: string)
    requires |pat| > 0 && |rep| <= |pat|
    ensures |Replace(s, pat, rep)| <= |s|
    decreases |s|
  {
    if |s| < |pat| {
    } else if s[..|pat|] == pat {
      ReplaceNeverGrows(s[|pat|..], pat, rep);
    } else {
      ReplaceNeverGrows(s[1..], pat, rep);
    }
  }

  /** Replacing a single character by text not containing it leaves none of it behind. */
  lemma {:induction false} ReplaceRemoves(s: string, c: char, rep: string)
    requires c !in rep
    ensures c !in Replace(s, [c], rep)
    decreases |s|
  {
    if |s| >= 1 {
      ReplaceRemoves(s[1..], c, rep);
    }
  }

  /** A pattern with a character the input lacks never matches, so the input is returned. */
  lemma {:induction false} ReplaceAbsent(s: string, pat: string, rep: string, c: char)
    requires |pat| > 0 && c in pat && c !in s
    ensures Replace(s, pat, rep) == s
    decreases |s|
  {
    if |s| >= |pat| {
      assert c !in s[..|pat|];
      ReplaceAbsent(s[1..], pat, rep, c);
      assert s == [s[0]] + s[1..];
    }
  }

  /** One step of a single-character pass at the head of the string. */
  lemma ReplaceCharCons(x: char, t: string, c: char, rep: string)
    ensures Replace([x] + t, [c], rep) == (if x == c then rep else [x]) + Replace(t, [c], rep)
  {
    var s := [x] + t;
    assert s[..1] == [x];
    assert s[1..] == t;
  }

  /** The last three passes of the chain. */
  function Tail3(s: string): string
  {
    Replace(Replace(Replace(s, "\n", " "), ",", ""), "\"", "")
  }

  /** What the last three passes do to one character. */
  function CharImage(x: char): string
  {
    if x == '\n' then " " else if x == ',' || x == '"' then "" else [x]
  }

  lemma Tail3Cons(x: char, t: string)
    ensures Tail3([x] + t) == CharImage(x) + Tail3(t)
  {
    ReplaceCharCons(x, t, '\n', " ");
    var a := Replace(t, "\n", " ");
    var h := if x == '\n' then " " else [x];
    assert |h| == 1;
    ReplaceCharCons(h[0], a, ',', "");
    assert [h[0]] == h;
    var b := Replace(a, ",", "");
    var h2 := if h[0] == ',' then "" else h;
    if h2 == "" {
      assert h2 + b == b;
    } else {
      assert h2 == [h2[0]];
      ReplaceCharCons(h2[0], b, '"', "");
    }
  }

  /** The CR LF pass at the head of the string. */
  lemma CrLfStep(s: string)
    requires |s| > 0
    ensures |s| >= 2 && s[0] == '\r' && s[1] == '\n' ==> Replace(s, "\r\n", " ") == " " + Replace(s[2..], "\r\n", " ")
    ensures !(|s| >= 2 && s[0] == '\r' && s[1] == '\n') ==> Replace(s, "\r\n", " ") == [s[0]] + Replace(s[1..], "\r\n", " ")
  {
    if |s| >= 2 && s[..2] == "\r\n" {
    } else if |s| < 2 {
      assert s == [s[0]] && s[1..] == "";
    }
  }

  /** The chain of four passes is exactly the one-pass description. */
  lemma {:induction false} SanitizeMatchesRef(s: string)
    ensures SanitizeMessage(s) == SanitizeRef(s)
    decreases |s|
  {
    if |s| == 0 {
    } else if |s| >= 2 && s[0] == '\r' && s[1] == '\n' {
      CrLfStep(s);
      Tail3Cons(' ', Replace(s[2..], "\r\n", " "));
      SanitizeMatchesRef(s[2..]);
    } else {
      CrLfStep(s);
      Tail3Cons(s[0], Replace(s[1..], "\r\n", " "));
      SanitizeMatchesRef(s[1..]);
    }
  }

  /** A sanitised message holds no line feed, comma or double quote. */
  lemma NoForbiddenChars(msg: string)
    ensures forall c :: c in SanitizeMessage(msg) ==> !Forbidden(c)
  {
    var m1 := Replace(msg, "\r\n", " ");
    var m2 := Replace(m1, "\n", " ");
    var m3 := Replace(m2, ",", "");
    var m4 := Replace(m3, "\"", "");
    ReplaceRemoves(m1, '\n', " ");
    ReplaceRemoves(m2, ',', "");
    ReplaceRemoves(m3, '"', "");
  }

  /** Sanitising never makes a message longer. */
  lemma SanitizeNeverGrows(msg: string)
    ensures |SanitizeMessage(msg)| <= |msg|
  {
    var m1 := Replace(msg, "\r\n", " ");
    var m2 := Replace(m1, "\n", " ");
    var m3 := Replace(m2, ",", "");
    ReplaceNeverGrows(msg, "\r\n", " ");
    ReplaceNeverGrows(m1, "\n", " ");
    ReplaceNeverGrows(m2, ",", "");
    ReplaceNeverGrows(m3, "\"", "");
  }

  /** Sanitising an already sanitised message changes nothing. */
  lemma SanitizeIdempotent(msg: string)
    ensures SanitizeMessage(SanitizeMessage(msg)) == SanitizeMessage(msg)
  {
    var m := SanitizeMessage(msg);
    NoForbiddenChars(msg);
    assert '\n' !in m && ',' !in m && '"' !in m;
    ReplaceAbsent(m, "\r\n", " ", '\n');
    ReplaceAbsent(m, "\n", " ", '\n');
    ReplaceAbsent(m, ",", "", ',');
    ReplaceAbsent(m, "\"", "", '"');
  }
}
