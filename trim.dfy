// Whitespace trimming of src/trim.cpp: `trim_str` trims one C string into a
// reused scratch buffer, `trimcpp` maps it over a character vector whose
// missing (NA) elements pass through untouched.

module Trimming {

  /** The C-locale `isspace` class: space, form feed, line feed, carriage
      return, horizontal tab and vertical tab, and nothing else. */
  function IsSpace(c: char): (r: bool)
    ensures r <==> c == ' ' || '\t' <= c <= '\r'
  {
    c == ' ' || c == '\U{000C}' || c == '\n' || c == '\r' || c == '\t' || c == '\U{000B}'
  }

  ghost predicate AllSpace(s: string)
  {
    forall i :: 0 <= i < |s| ==> IsSpace(s[i])
  }

  /** Neither starts nor ends with whitespace. */
  ghost predicate Trimmed(s: string)
  {
    s == [] || (!IsSpace(s[0]) && !IsSpace(s[|s| - 1]))
  }

  /** Reference definition: drop leading whitespace one character at a time ... */
  ghost function TrimLeft(s: string): string
  {
    if s != [] && IsSpace(s[0]) then TrimLeft(s[1..]) else s
  }

  /** ... and trailing whitespace likewise. */
  ghost function TrimRight(s: string): string
  {
    if s != [] && IsSpace(s[|s| - 1]) then TrimRight(s[..|s| - 1]) else s
  }

  /** `TrimLeft` keeps a suffix that does not start with whitespace, and what it drops is all whitespace. */
  lemma {:induction false} TrimLeftShape(s: string)
    ensures |TrimLeft(s)| <= |s| && TrimLeft(s) == s[|s| - |TrimLeft(s)|..]
    ensures AllSpace(s[..|s| - |TrimLeft(s)|])
    ensures TrimLeft(s) == [] || !IsSpace(TrimLeft(s)[0])
  {
    if s != [] && IsSpace(s[0]) {
      TrimLeftShape(s[1..]);
      var r := TrimLeft(s);
      assert s[..|s| - |r|] == [s[0]] + s[1..][..|s| - 1 - |r|];
    }
  }

  /** `TrimRight` keeps a prefix that does not end with whitespace, and what it drops is all whitespace. */
  lemma {:induction false} TrimRightShape(s: string)
    ensures |TrimRight(s)| <= |s| && TrimRight(s) == s[..|TrimRight(s)|]
    ensures AllSpace(s[|TrimRight(s)|..])
    ensures TrimRight(s) == [] || !IsSpace(TrimRight(s)[|TrimRight(s)| - 1])
  {
    if s != [] && IsSpace(s[|s| - 1]) {
      TrimRightShape(s[..|s| - 1]);
      var r := TrimRight(s);
      assert s[|r|..] == s[..|s| - 1][|r|..] + [s[|s| - 1]];
    }
  }

  /** The trim of `s`: drop its leading whitespace, then its trailing whitespace. */
  ghost function Trim(s: string): (r: string)
    ensures |r| <= |s| && Trimmed(r)
  {
    TrimLeftShape(s);
    TrimRightShape(TrimLeft(s));
    TrimRight(TrimLeft(s))
  }

  /** Skipping `a` leading whitespace characters up to a non-space (or the end) is `TrimLeft`. */
  lemma {:induction false} TrimLeftSkip(s: string, a: nat)
    requires a <= |s| && AllSpace(s[..a])
    requires a == |s| || !IsSpace(s[a])
    ensures TrimLeft(s) == s[a..]
  {
    if a > 0 {
      assert IsSpace(s[..a][0]);
      assert s[1..][..a - 1] == s[1..a];
      TrimLeftSkip(s[1..], a - 1);
      assert s[1..][a - 1..] == s[a..];
    }
  }

  /** Dropping trailing whitespace from position `b` back to a non-space (or the start) is `TrimRight`. */
  lemma {:induction false} TrimRightSkip(s: string, b: nat)
    requires b <= |s| && AllSpace(s[b..])
    requires b == 0 || !IsSpace(s[b - 1])
    ensures TrimRight(s) == s[..b]
    decreases |s| - b
  {
    if b < |s| {
      assert IsSpace(s[b..][|s| - 1 - b]);
      var t := s[..|s| - 1];
      assert t[b..] == s[b..|s| - 1];
      assert forall i :: 0 <= i < |t[b..]| ==> t[b..][i] == s[b..][i];
      TrimRightSkip(t, b);
      assert t[..b] == s[..b];
    } else {
      assert s[..b] == s;
    }
  }

  /** An all-whitespace string trims to the empty string. */
  lemma TrimAllSpace(s: string)
    requires AllSpace(s)
    ensures Trim(s) == []
  {
    assert s[..|s|] == s;
    TrimLeftSkip(s, |s|);
    TrimRightSkip([], 0);
  }

  /**
   * Characterisation, uniqueness half: if the input is whitespace, then a
   * string that neither starts nor ends with whitespace, then whitespace,
   * that middle string is the trim.
   */
  lemma TrimUnique(s: string, lead: string, m: string, trail: string)
    requires s == lead + m + trail
    requires AllSpace(lead) && AllSpace(trail) && Trimmed(m)
    ensures Trim(s) == m
  {
    if m == [] {
      assert forall i :: 0 <= i < |s| ==> IsSpace(s[i]) by {
        forall i | 0 <= i < |s| ensures IsSpace(s[i]) {
          if i < |lead| { assert s[i] == lead[i]; } else { assert s[i] == trail[i - |lead|]; }
        }
      }
      TrimAllSpace(s);
    } else {
      assert s[..|lead|] == lead;
      assert s[|lead|] == m[0];
      TrimLeftSkip(s, |lead|);
      var u := s[|lead|..];
      assert u == m + trail;
      assert u[|m|..] == trail;
      assert u[|m| - 1] == m[|m| - 1];
      TrimRightSkip(u, |m|);
      assert u[..|m|] == m;
    }
  }

  /** Characterisation, existence half: input = leading ws ++ trim ++ trailing ws, and the trim is trimmed. */
  lemma TrimSlice(s: string)
    ensures Trimmed(Trim(s))
    ensures exists a, b :: 0 <= a <= b <= |s| && Trim(s) == s[a..b] && AllSpace(s[..a]) && AllSpace(s[b..])
  {
    TrimLeftShape(s);
    var u := TrimLeft(s);
    TrimRightShape(u);
    var a := |s| - |u|;
    var b := a + |Trim(s)|;
    assert u[|Trim(s)|..] == s[b..];
    assert Trim(s) == s[a..b];
  }

  /** Trimming is idempotent. */
  lemma TrimIdempotent(s: string)
    ensures Trim(Trim(s)) == Trim(s)
  {
    TrimSlice(s);
    TrimUnique(Trim(s), [], Trim(s), []);
  }

  /** The trim is empty exactly when the input is all whitespace (including the empty input). */
  lemma TrimEmptyIff(s: string)
    ensures Trim(s) == [] <==> AllSpace(s)
  {
    TrimSlice(s);
    if AllSpace(s) {
      TrimAllSpace(s);
    }
    if Trim(s) == [] {
      var a, b :| 0 <= a <= b <= |s| && Trim(s) == s[a..b] && AllSpace(s[..a]) && AllSpace(s[b..]);
      forall i | 0 <= i < |s| ensures IsSpace(s[i]) {
        if i < a { assert s[i] == s[..a][i]; } else { assert s[i] == s[b..][i - b]; }
      }
    }
  }

  /** The three examples of the function's documentation, and an added all-whitespace case. */
  lemma TrimExamples()
    ensures Trim(" leading") == "leading"
    ensures Trim("trailing ") == "trailing"
    ensures Trim(" both ") == "both"
    ensures Trim("   \t\n  ") == ""
  {
    TrimUnique(" leading", " ", "leading", "");
    TrimUnique("trailing ", "", "trailing", " ");
    TrimUnique(" both ", " ", "both", " ");
    TrimAllSpace("   \t\n  ");
  }

  /** A `const char*` argument: a null pointer or a character string. */
  datatype CStr = NullPtr | Chars(s: string)

  /** The `std::string` that `trimcpp` reuses across elements. */
  class ScratchBuffer {
    var text: string

    constructor ()
      ensures text == []
    {
      text := [];
    }

    /** `std::string::clear`. */
    method Clear()
      modifies this
      ensures text == []
    {
      text := [];
    }

    /** `std::string::append(str, len)`: the `len` characters starting at `from`. */
    method Append(s: string, from: nat, len: nat)
      requires from + len <= |s|
      modifies this
      ensures text == old(text) + s[from..from + len]
    {
      text := text + s[from..from + len];
    }
  }

  /**
   * trim_str: a null pointer yields "" and leaves the buffer alone; otherwise
   * the buffer is cleared, `start` advances past leading whitespace while
   * `len` shrinks with it, `pointer` walks back from the last character but
   * never to `start`, and the surviving `len` characters are appended.
   */
  method TrimStr(str: CStr, len: int, buffer: ScratchBuffer) returns (r: string)
    requires str.Chars? ==> len == |str.s|
    modifies buffer
    ensures str.NullPtr? ==> r == [] && buffer.text == old(buffer.text)
    ensures str.Chars? ==> r == Trim(str.s) && buffer.text == r
  {
    if str.NullPtr? {
      return "";
    }
    var s := str.s;
    buffer.Clear();
    var start, n := 0, len;
    while start < |s| && IsSpace(s[start])
      invariant 0 <= start <= |s| && n == |s| - start
      invariant AllSpace(s[..start])
    {
      assert s[..start + 1] == s[..start] + [s[start]];
      start, n := start + 1, n - 1;
    }
    var pointer := start + n - 1;
    while pointer > start && IsSpace(s[pointer])
      invariant 0 <= n && start + n <= |s| && pointer == start + n - 1
      invariant AllSpace(s[start + n..])
    {
      assert s[pointer..] == [s[pointer]] + s[start + n..];
      n, pointer := n - 1, pointer - 1;
    }
    buffer.Append(s, start, n);
    assert s == s[..start] + s[start..start + n] + s[start + n..];
    TrimUnique(s, s[..start], s[start..start + n], s[start + n..]);
    r := buffer.text;
  }

  /** An element of an R character vector: missing, or present text. */
  datatype Elem = NA | Present(s: string)

  /**
   * trimcpp: one output element per input element, NA copied through and never
   * handed to `TrimStr`; `scanned` records the indices that were.
   */
  method TrimCpp(s: seq<Elem>) returns (output: seq<Elem>, ghost scanned: set<int>)
    ensures |output| == |s|
    ensures forall i :: 0 <= i < |s| && s[i].NA? ==> output[i] == NA
    ensures forall i :: 0 <= i < |s| && s[i].Present? ==> output[i] == Present(Trim(s[i].s))
    ensures scanned == set i | 0 <= i < |s| && s[i].Present?
  {
    var len := |s|;
    var out := new Elem[len](_ => NA);
    var buffer := new ScratchBuffer();
    scanned := {};
    for i := 0 to len
      invariant forall k :: 0 <= k < i ==> out[k] == if s[k].NA? then NA else Present(Trim(s[k].s))
      invariant scanned == set k | 0 <= k < i && s[k].Present?
    {
      if s[i].NA? {
        out[i] := s[i];
      } else {
        var t := TrimStr(Chars(s[i].s), |s[i].s|, buffer);
        scanned := scanned + {i};
        out[i] := Present(t);
      }
    }
    output := out[..];
  }
}
