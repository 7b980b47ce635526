/**
  The class-name list of `load_classes`: the lines of the class file with
  surrounding whitespace stripped and empty lines dropped, in file order.
  Reading the file and the once-only initialisation around it are not part
  of this model; the lines are given.
*/
module ClassList {

  /** Ruby's whitespace for `strip`: NUL, tab, line feed, vertical tab, form feed, carriage return, space. */
  predicate IsSpace(c: char)
  {
    c == '\0' || c == '\t' || c == '\n' || c as int == 11 || c as int == 12 || c == '\r' || c == ' '
  }

  function StripLeading(s: string): string
  {
    if s != [] && IsSpace(s[0]) then StripLeading(s[1..]) else s
  }

  function StripTrailing(s: string): string
  {
    if s != [] && IsSpace(s[|s| - 1]) then StripTrailing(s[..|s| - 1]) else s
  }

  /** `String#strip`. */
  function Strip(s: string): string
  {
    StripTrailing(StripLeading(s))
  }

  /** `lines.map(&:strip)`. */
  function StripAll(lines: seq<string>): (r: seq<string>)
    ensures |r| == |lines|
    ensures forall i :: 0 <= i < |r| ==> r[i] == Strip(lines[i])
  {
    seq(|lines|, i requires 0 <= i < |lines| => Strip(lines[i]))
  }

  /** `reject(&:empty?)`: the non-empty strings, in order. */
  function RejectEmpty(ss: seq<string>): seq<string>
  {
    if ss == [] then []
    else (if ss[0] == "" then [] else [ss[0]]) + RejectEmpty(ss[1..])
  }

  /** `File.readlines(path).map(&:strip).reject(&:empty?)` on the given lines. */
  function ParseClasses(lines: seq<string>): seq<string>
  {
    RejectEmpty(StripAll(lines))
  }

  /** s is s[i..j] with only whitespace outside and, unless empty, none at its ends. */
  predicate IsStripOf(s: string, t: string)
  {
    exists i, j | 0 <= i <= j <= |s| :: StrippedAt(s, t, i, j)
  }

  predicate StrippedAt(s: string, t: string, i: int, j: int)
  {
    0 <= i <= j <= |s| && t == s[i..j]
    && (forall k :: 0 <= k < i ==> IsSpace(s[k]))
    && (forall k :: j <= k < |s| ==> IsSpace(s[k]))
    && (i < j ==> !IsSpace(s[i]) && !IsSpace(s[j - 1]))
  }

  /** `lstrip` drops the whitespace prefix and stops at the first other character. */
  lemma {:induction false} StripLeadingSpec(s: string) returns (i: nat)
    ensures i <= |s| && StripLeading(s) == s[i..]
    ensures forall k :: 0 <= k < i ==> IsSpace(s[k])
    ensures i < |s| ==> !IsSpace(s[i])
    decreases |s|
  {
    if s != [] && IsSpace(s[0]) {
      var i' := StripLeadingSpec(s[1..]);
      i := i' + 1;
      assert s[1..][i'..] == s[i..];
      forall k | 0 < k < i ensures IsSpace(s[k]) {
        assert s[k] == s[1..][k - 1];
      }
    } else {
      i := 0;
    }
  }

  /** `rstrip` drops the whitespace suffix and stops at the last other character. */
  lemma {:induction false} StripTrailingSpec(s: string) returns (j: nat)
    ensures j <= |s| && StripTrailing(s) == s[..j]
    ensures forall k :: j <= k < |s| ==> IsSpace(s[k])
    ensures 0 < j ==> !IsSpace(s[j - 1])
    decreases |s|
  {
    if s != [] && IsSpace(s[|s| - 1]) {
      var p := s[..|s| - 1];
      j := StripTrailingSpec(p);
      assert p[..j] == s[..j];
      forall k | j <= k < |s| - 1 ensures IsSpace(s[k]) {
        assert s[k] == p[k];
      }
    } else {
      j := |s|;
    }
  }

  /**
    `strip` keeps the stretch from the first to the last non-whitespace
    character and removes only whitespace.
  */
  lemma StripSpec(s: string)
    ensures IsStripOf(s, Strip(s))
  {
    var i := StripLeadingSpec(s);
    var u := s[i..];
    var j := StripTrailingSpec(u);
    assert Strip(s) == s[i..i + j];
    forall k | i + j <= k < |s| ensures IsSpace(s[k]) {
      assert s[k] == u[k - i];
    }
    if 0 < j {
      assert s[i] == u[0];
      assert s[i + j - 1] == u[j - 1];
    }
    assert StrippedAt(s, Strip(s), i, i + j);
  }

  /** Rejecting empties distributes over concatenation, so file order is kept. */
  lemma {:induction false} RejectEmptyAppend(a: seq<string>, b: seq<string>)
    ensures RejectEmpty(a + b) == RejectEmpty(a) + RejectEmpty(b)
    decreases |a|
  {
    if a != [] {
      assert (a + b)[1..] == a[1..] + b;
      RejectEmptyAppend(a[1..], b);
    } else {
      assert a + b == b;
    }
  }

  /** The class list of two stretches of lines is the list of the first followed by that of the second. */
  lemma ParseClassesAppend(a: seq<string>, b: seq<string>)
    ensures ParseClasses(a + b) == ParseClasses(a) + ParseClasses(b)
  {
    assert StripAll(a + b) == StripAll(a) + StripAll(b);
    RejectEmptyAppend(StripAll(a), StripAll(b));
  }

  lemma {:induction false} RejectEmptyMembers(ss: seq<string>)
    ensures |RejectEmpty(ss)| <= |ss|
    ensures forall t :: t in RejectEmpty(ss) <==> t != "" && t in ss
    decreases |ss|
  {
    if ss != [] {
      RejectEmptyMembers(ss[1..]);
      assert ss == [ss[0]] + ss[1..];
    }
  }

  /**
    A name is in the class list exactly when it is non-empty and is the
    stripped form of some line; there are never more names than lines.
  */
  lemma ParseClassesMembers(lines: seq<string>)
    ensures |ParseClasses(lines)| <= |lines|
    ensures forall t :: t in ParseClasses(lines) <==>
      t != "" && exists i :: 0 <= i < |lines| && Strip(lines[i]) == t
  {
    RejectEmptyMembers(StripAll(lines));
  }

  /** No class name is empty or begins or ends with whitespace. */
  lemma ParseClassesTrimmed(lines: seq<string>)
    ensures forall t :: t in ParseClasses(lines) ==> t != [] && !IsSpace(t[0]) && !IsSpace(t[|t| - 1])
  {
    ParseClassesMembers(lines);
    forall t | t in ParseClasses(lines) ensures t != [] && !IsSpace(t[0]) && !IsSpace(t[|t| - 1]) {
      var i :| 0 <= i < |lines| && Strip(lines[i]) == t;
      StripSpec(lines[i]);
      var a, b :| StrippedAt(lines[i], t, a, b);
    }
  }
}
