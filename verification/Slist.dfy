/** common/slist.c: a list of strings, joined into and split out of one text. */
module StringList {
  const NUL: char := '\0'

  /** The characters of a C string: no NUL among them. */
  predicate CString(s: string) {
    NUL !in s
  }

  /** What a delimiter adds to the text. Writing NUL behind a text leaves it as it is. */
  function DelimText(d: char): string {
    if d == NUL then "" else [d]
  }

  /** The elements separated by the delimiter. */
  function Joined(l: seq<string>, d: char): string {
    if l == [] then ""
    else if |l| == 1 then l[0]
    else Joined(l[..|l| - 1], d) + DelimText(d) + l[|l| - 1]
  }

  /** strchrnul: the offset of the first delimiter, or the length. */
  function Find(s: string, d: char): (i: nat)
    ensures i <= |s| && (i < |s| ==> s[i] == d) && d !in s[..i]
  {
    if s == "" || s[0] == d then 0
    else
      assert s[..Find(s[1..], d) + 1] == [s[0]] + s[1..][..Find(s[1..], d)];
      Find(s[1..], d) + 1
  }

  /** The pieces between the delimiters of a text, an empty text being one empty piece. */
  function Pieces(s: string, d: char): seq<string>
    decreases |s|
  {
    var i := Find(s, d);
    if i == |s| then [s] else [s[..i]] + Pieces(s[i + 1..], d)
  }

  function Elements(s: string, d: char): seq<string> {
    if s == "" then [] else Pieces(s, d)
  }

  ghost predicate Without(l: seq<string>, d: char) {
    forall i :: 0 <= i < |l| ==> d !in l[i]
  }

  lemma {:induction false} JoinedCons(x: string, l: seq<string>, d: char)
    requires l != []
    ensures Joined([x] + l, d) == x + DelimText(d) + Joined(l, d)
  {
    var all := [x] + l;
    if |l| == 1 {
      assert all[..1] == [x];
    } else {
      assert all[..|l|] == [x] + l[..|l| - 1];
      JoinedCons(x, l[..|l| - 1], d);
      assert Joined(all, d) == x + DelimText(d) + Joined(l[..|l| - 1], d) + DelimText(d) + l[|l| - 1];
    }
  }

  lemma {:induction false} PiecesJoin(s: string, d: char)
    requires CString(s)
    ensures Joined(Pieces(s, d), d) == s
    ensures Pieces(s, d) != [] && Without(Pieces(s, d), d)
    ensures Pieces(s, d) == [""] ==> s == ""
    decreases |s|
  {
    var i := Find(s, d);
    if i < |s| {
      hide Joined;
      var x, t := s[..i], s[i + 1..];
      var rest := Pieces(t, d);
      assert s == x + [d] + t;
      assert CString(t) && d != NUL;
      PiecesJoin(t, d);
      JoinedCons(x, rest, d);
      assert Pieces(s, d) == [x] + rest;
      assert |[x] + rest| > 1;
    }
  }

  /** Joining undoes splitting, for every text and every delimiter. */
  lemma JoinOfSplit(s: string, d: char)
    requires CString(s)
    ensures Joined(Elements(s, d), d) == s
  {
    if s != "" {
      PiecesJoin(s, d);
    }
  }

  lemma FoundAt(s: string, d: char, i: nat)
    requires i <= |s| && d !in s[..i] && (i < |s| ==> s[i] == d)
    ensures Find(s, d) == i
  {
  }

  /** One step of splitting: the piece up to the first delimiter, and the rest. */
  lemma PiecesAt(s: string, d: char, i: nat)
    requires i <= |s| && d !in s[..i] && (i < |s| ==> s[i] == d)
    ensures Pieces(s, d) == if i == |s| then [s] else [s[..i]] + Pieces(s[i + 1..], d)
  {
  }

  lemma FindSkips(x: string, t: string, d: char)
    requires d !in x
    ensures Find(x + [d] + t, d) == |x|
  {
    var s := x + [d] + t;
    assert s[..|x|] == x;
    FoundAt(s, d, |x|);
  }

  lemma {:induction false} PiecesOfJoin(l: seq<string>, d: char)
    requires l != [] && Without(l, d) && d != NUL
    ensures Pieces(Joined(l, d), d) == l
  {
    if |l| == 1 {
      var i := Find(l[0], d);
      assert i == |l[0]|;
    } else {
      var x, rest := l[0], l[1..];
      assert l == [x] + rest;
      JoinedCons(x, rest, d);
      var t := Joined(rest, d);
      FindSkips(x, t, d);
      assert (x + [d] + t)[..|x|] == x && (x + [d] + t)[|x| + 1..] == t;
      PiecesOfJoin(rest, d);
    }
  }

  /** Splitting undoes joining exactly when no element holds the delimiter, the list is not the
      one empty string, and, for the delimiter NUL, there is at most one element. */
  lemma SplitOfJoin(l: seq<string>, d: char)
    requires forall i :: 0 <= i < |l| ==> CString(l[i])
    ensures Elements(Joined(l, d), d) == l <==> l != [""] && Without(l, d) && (d == NUL ==> |l| <= 1)
  {
    var s := Joined(l, d);
    JoinedIsCString(l, d);
    if s != "" {
      PiecesJoin(s, d);
    }
    if d == NUL && s != "" {
      assert Find(s, d) == |s|;
    } else if d != NUL && l != [""] && Without(l, d) && l != [] {
      PiecesOfJoin(l, d);
      if s == "" {
        EmptyJoin(l, d);
      }
    }
  }

  lemma {:induction false} JoinedIsCString(l: seq<string>, d: char)
    requires forall i :: 0 <= i < |l| ==> CString(l[i])
    ensures CString(Joined(l, d))
  {
    if |l| > 1 {
      JoinedIsCString(l[..|l| - 1], d);
    }
  }

  /** With a proper delimiter, only the empty list and the list of one empty string join to the empty text. */
  lemma EmptyJoin(l: seq<string>, d: char)
    requires d != NUL && Joined(l, d) == ""
    ensures l == [] || l == [""]
  {
  }

  function TotalLen(l: seq<string>): nat {
    if l == [] then 0 else TotalLen(l[..|l| - 1]) + |l[|l| - 1]|
  }

  /** The buffer computed for the joined text (its elements plus one per element) has room for
      the text and the terminating NUL, and with a proper delimiter for nothing more. */
  lemma {:induction false} JoinFits(l: seq<string>, d: char)
    requires l != []
    ensures if d == NUL then |Joined(l, d)| + 1 <= TotalLen(l) + |l| else |Joined(l, d)| + 1 == TotalLen(l) + |l|
  {
    if |l| == 1 {
      assert l[..0] == [];
    } else {
      JoinFits(l[..|l| - 1], d);
    }
  }

  /** strlen of a buffer: the offset of its first NUL. */
  predicate Holds(buf: seq<char>, text: string) {
    |text| < |buf| && buf[..|text|] == text && CString(text) && forall i :: |text| <= i < |buf| ==> buf[i] == NUL
  }

  class Slist {
    var elems: seq<string>

    /** slist_create */
    constructor ()
      ensures elems == []
    {
      elems := [];
    }

    /** append: a copy of the first `len` characters of `str`. */
    method Append(str: string, len: nat)
      requires len <= |str|
      modifies this
      ensures elems == old(elems) + [str[..len]]
    {
      elems := elems + [str[..len]];
    }

    /** slist_clone */
    method Clone() returns (copy: Slist)
      ensures fresh(copy) && copy.elems == elems
    {
      copy := new Slist();
      for i := 0 to |elems|
        invariant copy.elems == elems[..i]
      {
        copy.Append(elems[i], |elems[i]|);
        assert elems[i][..|elems[i]|] == elems[i];
      }
    }

    /** slist_has */
    method Has(str: string) returns (found: bool)
      ensures found <==> str in elems
    {
      for i := 0 to |elems|
        invariant str !in elems[..i]
      {
        if elems[i] == str {
          return true;
        }
      }
      return false;
    }

    /** The size of the buffer for the joined text: the elements, and one more for each. */
    method JoinedSize() returns (size: nat)
      ensures size == TotalLen(elems) + |elems|
    {
      size := 0;
      for i := 0 to |elems|
        invariant size == TotalLen(elems[..i])
      {
        assert elems[..i + 1][..i] == elems[..i];
        size := size + |elems[i]|;
      }
      assert elems[..|elems|] == elems;
      size := size + |elems|;
    }

    /** slist_join, into a zeroed buffer of the computed size. */
    method Join(delim: char) returns (buf: array<char>)
      requires forall i :: 0 <= i < |elems| ==> CString(elems[i])
      ensures fresh(buf) && Holds(buf[..], Joined(elems, delim))
      ensures delim != NUL ==> buf.Length == |Joined(elems, delim)| + 1
    {
      if |elems| == 0 {
        buf := new char[1](_ => NUL);
        return;
      }
      var bufLen := JoinedSize();
      buf := new char[bufLen](_ => NUL);
      JoinFits(elems, delim);
      assert Joined(elems[..0], delim) == "";
      hide Joined, TotalLen;
      for i := 0 to |elems|
        invariant fresh(buf) && buf.Length == bufLen && Holds(buf[..], Joined(elems[..i], delim))
      {
        ghost var text := Joined(elems[..i], delim);
        RoomFor(elems, i, delim);
        JoinedSnoc(elems, i, delim);
        if i != 0 {
          PutDelim(buf, text, delim);
          text := text + DelimText(delim);
        }
        CopyBehind(buf, text, elems[i]);
      }
      assert elems[..|elems|] == elems;
    }
  }

  /** The buffer has room for each step of joining. */
  lemma RoomFor(l: seq<string>, i: nat, d: char)
    requires i < |l|
    ensures |Joined(l[..i + 1], d)| < TotalLen(l) + |l|
  {
    TotalLenPrefix(l, i + 1);
    JoinFits(l[..i + 1], d);
  }

  lemma {:induction false} TotalLenPrefix(l: seq<string>, n: nat)
    requires n <= |l|
    ensures TotalLen(l[..n]) <= TotalLen(l)
  {
    if n < |l| {
      TotalLenPrefix(l[..|l| - 1], n);
      assert l[..|l| - 1][..n] == l[..n];
    } else {
      assert l[..n] == l;
    }
  }

  lemma JoinedSnoc(l: seq<string>, i: nat, d: char)
    requires i < |l|
    ensures Joined(l[..i + 1], d) == if i == 0 then l[0] else Joined(l[..i], d) + DelimText(d) + l[i]
  {
    assert l[..i + 1][..i] == l[..i];
  }

  /** strlen */
  method Strlen(buf: array<char>, ghost text: string) returns (n: nat)
    requires Holds(buf[..], text)
    ensures n == |text|
  {
    n := 0;
    assert forall k :: 0 <= k < |text| ==> buf[..][k] == buf[..][..|text|][k] != NUL;
    while buf[n] != NUL
      invariant n <= |text|
      decreases |text| - n
    {
      n := n + 1;
    }
  }

  /** Writes the delimiter over the terminating NUL. */
  method PutDelim(buf: array<char>, ghost text: string, delim: char)
    requires Holds(buf[..], text) && |text| + |DelimText(delim)| < buf.Length
    modifies buf
    ensures Holds(buf[..], text + DelimText(delim))
  {
    var end := Strlen(buf, text);
    ghost var before := buf[..];
    buf[end] := delim;
    assert buf[..] == before[end := delim];
    assert delim == NUL ==> buf[..] == before && text + DelimText(delim) == text;
    assert delim != NUL ==> buf[..][..|text| + 1] == text + [delim];
  }

  /** strcpy behind the text. */
  method CopyBehind(buf: array<char>, ghost text: string, elem: string)
    requires Holds(buf[..], text) && CString(elem) && |text| + |elem| < buf.Length
    modifies buf
    ensures Holds(buf[..], text + elem)
  {
    var end := Strlen(buf, text);
    ghost var before := buf[..];
    for i := 0 to |elem|
      invariant buf[..] == before[..end] + elem[..i] + before[end + i..]
    {
      buf[end + i] := elem[i];
    }
    buf[end + |elem|] := NUL;
    assert buf[..][..end + |elem|] == text + elem;
  }

  /** strchrnul: where the first delimiter from `left` on is, or the end of the string. */
  method Strchrnul(str: string, left: nat, delim: char) returns (end: nat)
    requires left <= |str|
    ensures left <= end <= |str| && delim !in str[left..end] && (end < |str| ==> str[end] == delim)
  {
    end := left;
    while end < |str| && str[end] != delim
      invariant left <= end <= |str| && delim !in str[left..end]
    {
      end := end + 1;
    }
  }

  /** slist_split */
  method Split(str: string, delim: char) returns (list: Slist)
    requires CString(str)
    ensures fresh(list) && list.elems == Elements(str, delim)
  {
    hide Pieces;
    list := new Slist();
    if |str| == 0 {
      return;
    }
    var left := 0;
    while true
      invariant 0 <= left <= |str| && fresh(list)
      invariant list.elems + Pieces(str[left..], delim) == Pieces(str, delim)
      decreases |str| - left
    {
      var end := Strchrnul(str, left, delim);
      var rest := str[left..];
      assert rest[..end - left] == str[left..end];
      PiecesAt(rest, delim, end - left);
      ghost var before := list.elems;
      list.Append(rest, end - left);
      if end == |str| {
        assert rest[..end - left] == rest;
        return;
      }
      assert before + ([rest[..end - left]] + Pieces(str[end + 1..], delim)) ==
               list.elems + Pieces(str[end + 1..], delim);
      assert rest[end - left + 1..] == str[end + 1..];
      left := end + 1;
    }
  }

}
