/** lib/string.c: strings in byte arrays, from a position up to the first zero byte. */
module Strings {
  import opened Bytes

  const SLASH: Byte := 0x2F

  /** Where the string at `p` ends: the first zero, or the end of the memory. */
  ghost function End(mem: seq<Byte>, p: nat): (e: nat)
    requires p <= |mem|
    ensures p <= e <= |mem| && (e < |mem| ==> mem[e] == 0)
    ensures forall i | p <= i < e :: mem[i] != 0
    decreases |mem| - p
  {
    if p == |mem| || mem[p] == 0 then p else End(mem, p + 1)
  }

  ghost function Text(mem: seq<Byte>, p: nat): seq<Byte>
    requires p <= |mem|
  {
    mem[p..End(mem, p)]
  }

  /** A string whose zero is inside the memory. */
  ghost predicate Ends(mem: seq<Byte>, p: nat) {
    p <= |mem| && End(mem, p) < |mem|
  }

  lemma {:induction false} EndIs(mem: seq<Byte>, p: nat, e: nat)
    requires p <= e < |mem| && mem[e] == 0 && forall i | p <= i < e :: mem[i] != 0
    ensures End(mem, p) == e && Ends(mem, p)
    decreases e - p
  {
  }

  // ----- Spans -----

  /** The first position in `[p, e)` whose byte is not in `accept`, or `e`. */
  ghost function Past(mem: seq<Byte>, p: nat, e: nat, accept: seq<Byte>): (q: nat)
    requires p <= e <= |mem|
    ensures p <= q <= e && (q < e ==> mem[q] !in accept)
    decreases e - p
  {
    if p == e || mem[p] !in accept then p else Past(mem, p + 1, e, accept)
  }

  /** The first position in `[p, e)` whose byte is in `reject`, or `e`. */
  ghost function UpTo(mem: seq<Byte>, p: nat, e: nat, reject: seq<Byte>): (q: nat)
    requires p <= e <= |mem|
    ensures p <= q <= e && (q < e ==> mem[q] in reject)
    decreases e - p
  {
    if p == e || mem[p] in reject then p else UpTo(mem, p + 1, e, reject)
  }

  /** The inner loop of strspn, strcspn and strpbrk. */
  method Among(b: Byte, chars: seq<Byte>) returns (found: bool)
    ensures found <==> b in chars
  {
    found := false;
    for i := 0 to |chars|
      invariant found <==> b in chars[..i]
    {
      assert chars[..i + 1] == chars[..i] + [chars[i]];
      if chars[i] == b {
        found := true;
      }
    }
    assert chars[..|chars|] == chars;
  }

  method Strspn(s: array<Byte>, p: nat, accept: seq<Byte>) returns (size: nat)
    requires Ends(s[..], p)
    ensures p + size == Past(s[..], p, End(s[..], p), accept)
  {
    size := 0;
    ghost var mem, e := s[..], End(s[..], p);
    while s[p + size] != 0
      invariant p + size <= e && Past(mem, p + size, e, accept) == Past(mem, p, e, accept)
      decreases e - size
    {
      var accepted := Among(s[p + size], accept);
      if !accepted {
        break;
      }
      size := size + 1;
    }
  }

  method Strcspn(s: array<Byte>, p: nat, reject: seq<Byte>) returns (size: nat)
    requires Ends(s[..], p)
    ensures p + size == UpTo(s[..], p, End(s[..], p), reject)
  {
    size := 0;
    ghost var mem, e := s[..], End(s[..], p);
    while s[p + size] != 0
      invariant p + size <= e && UpTo(mem, p + size, e, reject) == UpTo(mem, p, e, reject)
      decreases e - size
    {
      var rejected := Among(s[p + size], reject);
      if rejected {
        break;
      }
      size := size + 1;
    }
  }

  datatype Pointer = Null | To(at: nat)

  /** strpbrk: the first byte of the string that is in `accept`. */
  method Strpbrk(s: array<Byte>, p: nat, accept: seq<Byte>) returns (found: Pointer)
    requires Ends(s[..], p)
    ensures var e := End(s[..], p); var q := UpTo(s[..], p, e, accept); found == if q == e then Null else To(q)
  {
    var q := p;
    ghost var mem, e := s[..], End(s[..], p);
    while s[q] != 0
      invariant p <= q <= e && UpTo(mem, q, e, accept) == UpTo(mem, p, e, accept)
      decreases e - q
    {
      var accepted := Among(s[q], accept);
      if accepted {
        return To(q);
      }
      q := q + 1;
    }
    return Null;
  }

  /** strchr of the zero byte. */
  method StrEnd(s: array<Byte>, p: nat) returns (end: nat)
    requires Ends(s[..], p)
    ensures end == End(s[..], p)
  {
    end := p;
    while s[end] != 0
      invariant p <= end <= End(s[..], p)
      decreases End(s[..], p) - end
    {
      end := end + 1;
    }
  }

  /** strcmp of the string at `p` with a name: 0 exactly when they are equal. */
  method Strcmp(s: array<Byte>, p: nat, name: seq<Byte>) returns (r: int)
    requires Ends(s[..], p) && 0 !in name
    ensures r == 0 <==> Text(s[..], p) == name
  {
    ghost var mem, e := s[..], End(s[..], p);
    var i := 0;
    while i < |name| && s[p + i] == name[i]
      invariant i <= |name| && p + i <= e && mem[p..p + i] == name[..i]
    {
      assert mem[p..p + i + 1] == mem[p..p + i] + [mem[p + i]];
      i := i + 1;
    }
    var c := if i < |name| then name[i] else 0;
    r := if s[p + i] < c then -1 else if s[p + i] > c then 1 else 0;
    if r == 0 {
      assert name[..|name|] == name && p + i == e;
    } else {
      assert i < |name| && i < |Text(mem, p)| ==> Text(mem, p)[i] != name[i];
    }
  }

  // ----- Tokens -----

  /** A list of byte strings. */
  datatype Names = Nil | Cons(head: seq<Byte>, tail: Names)

  ghost function Append(a: Names, b: Names): Names {
    match a
    case Nil => b
    case Cons(head, tail) => Cons(head, Append(tail, b))
  }

  /** The bytes of `[p, e)` cut at every delimiter. */
  ghost function Fields(mem: seq<Byte>, p: nat, e: nat, delim: seq<Byte>): (r: Names)
    requires p <= e <= |mem|
    ensures r.Cons?
    decreases e - p
  {
    if p == e then Cons([], Nil)
    else
      var rest := Fields(mem, p + 1, e, delim);
      if mem[p] in delim then Cons([], rest) else Cons([mem[p]] + rest.head, rest.tail)
  }

  ghost function NonEmpty(fields: Names): Names {
    match fields
    case Nil => Nil
    case Cons(head, tail) => if head == [] then NonEmpty(tail) else Cons(head, NonEmpty(tail))
  }

  /** The maximal runs of `[p, e)` without a delimiter. */
  ghost function Tokens(mem: seq<Byte>, p: nat, e: nat, delim: seq<Byte>): Names
    requires p <= e <= |mem|
  {
    NonEmpty(Fields(mem, p, e, delim))
  }

  lemma {:induction false} LeadingDelimiters(mem: seq<Byte>, p: nat, e: nat, delim: seq<Byte>)
    requires p <= e <= |mem|
    ensures Tokens(mem, p, e, delim) == Tokens(mem, Past(mem, p, e, delim), e, delim)
    decreases e - p
  {
    if p < e && mem[p] in delim {
      LeadingDelimiters(mem, p + 1, e, delim);
    }
  }

  lemma {:induction false} FirstField(mem: seq<Byte>, p: nat, e: nat, delim: seq<Byte>)
    requires p <= e <= |mem|
    ensures Fields(mem, p, e, delim).head == mem[p..UpTo(mem, p, e, delim)]
    ensures Fields(mem, p, e, delim).tail ==
            if UpTo(mem, p, e, delim) < e then Fields(mem, UpTo(mem, p, e, delim) + 1, e, delim) else Nil
    decreases e - p
  {
    if p < e && mem[p] !in delim {
      FirstField(mem, p + 1, e, delim);
    }
  }

  /** Where the scan goes on behind a token that ends at `q`. */
  function Behind(q: nat, e: nat): nat { if q < e then q + 1 else q }

  /** Skipping delimiters, taking a run and going on behind it, again and again, gives all tokens. */
  lemma TokensStep(mem: seq<Byte>, p: nat, e: nat, delim: seq<Byte>)
    requires p <= e <= |mem|
    ensures var k := Past(mem, p, e, delim); var q := UpTo(mem, k, e, delim);
      if k == e then Tokens(mem, p, e, delim) == Nil
      else k < q && Tokens(mem, p, e, delim) == Cons(mem[k..q], Tokens(mem, Behind(q, e), e, delim))
  {
    var k := Past(mem, p, e, delim);
    LeadingDelimiters(mem, p, e, delim);
    if k < e {
      FirstField(mem, k, e, delim);
    }
  }

  lemma {:induction false} SameFields(mem: seq<Byte>, other: seq<Byte>, p: nat, e: nat, delim: seq<Byte>)
    requires p <= e <= |mem| && e <= |other| && forall i | p <= i < e :: mem[i] == other[i]
    ensures Fields(mem, p, e, delim) == Fields(other, p, e, delim)
    decreases e - p
  {
    if p < e {
      SameFields(mem, other, p + 1, e, delim);
    }
  }

  /** strtok_r, with the saved pointer as an index: past the leading delimiters, up to the next one, which becomes a
      zero. */
  method StrtokR(s: array<Byte>, start: Pointer, delim: seq<Byte>, savePtr: nat) returns (token: Pointer, saved: nat)
    requires Ends(s[..], if start.To? then start.at else savePtr)
    modifies s
    ensures Took(old(s[..]), if start.To? then start.at else savePtr, delim, savePtr, token, saved, s[..])
  {
    var p := if start.To? then start.at else savePtr;
    ghost var mem, e := s[..], End(s[..], p);
    var k := Strspn(s, p, delim);
    if s[p + k] == 0 {
      return Null, savePtr;
    }
    EndIs(mem, p + k, e);
    var found := Strpbrk(s, p + k, delim);
    token := To(p + k);
    if found.Null? {
      saved := StrEnd(s, p + k);
    } else {
      s[found.at] := 0;
      saved := found.at + 1;
      assert s[..] == mem[found.at := 0];
    }
  }

  ghost predicate Took(mem: seq<Byte>, p: nat, delim: seq<Byte>, savePtr: nat, token: Pointer, saved: nat,
                       after: seq<Byte>)
    requires Ends(mem, p)
  {
    var e := End(mem, p);
    var k := Past(mem, p, e, delim);
    var q := UpTo(mem, k, e, delim);
    if k == e then token == Null && saved == savePtr && after == mem
    else token == To(k) && saved == Behind(q, e) && after == if q < e then mem[q := 0] else mem
  }

  /** One call yields the first token as a string of its own and leaves the others, unchanged, to the next call. */
  lemma TookMeans(mem: seq<Byte>, p: nat, delim: seq<Byte>, savePtr: nat, token: Pointer, saved: nat, after: seq<Byte>)
    requires Ends(mem, p) && Took(mem, p, delim, savePtr, token, saved, after)
    ensures var e := End(mem, p); var tokens := Tokens(mem, p, e, delim);
      if tokens == Nil then token == Null && after == mem
      else
        && token.To? && |after| == |mem| && p <= token.at <= saved <= e
        && Ends(after, token.at) && Text(after, token.at) == tokens.head
        && Ends(after, saved) && End(after, saved) == e && Tokens(after, saved, e, delim) == tokens.tail
  {
    var e := End(mem, p);
    var k := Past(mem, p, e, delim);
    var q := UpTo(mem, k, e, delim);
    TokensStep(mem, p, e, delim);
    if k < e {
      EndIs(after, k, q);
      EndIs(after, saved, e);
      SameFields(mem, after, saved, e, delim);
    }
  }

  // ----- What tokens are -----

  ghost function Joined(fields: Names): seq<Byte> {
    match fields
    case Nil => []
    case Cons(head, tail) => head + Joined(tail)
  }

  /** The bytes of `[p, e)` that are no delimiters. */
  ghost function Without(mem: seq<Byte>, p: nat, e: nat, delim: seq<Byte>): seq<Byte>
    requires p <= e <= |mem|
    decreases e - p
  {
    if p == e then [] else if mem[p] in delim then Without(mem, p + 1, e, delim)
    else [mem[p]] + Without(mem, p + 1, e, delim)
  }

  lemma {:induction false} JoinedFields(mem: seq<Byte>, p: nat, e: nat, delim: seq<Byte>)
    requires p <= e <= |mem|
    ensures Joined(Fields(mem, p, e, delim)) == Without(mem, p, e, delim)
    decreases e - p
  {
    if p < e {
      JoinedFields(mem, p + 1, e, delim);
      JoinedFirst(Fields(mem, p + 1, e, delim), mem[p]);
    }
  }

  lemma Regrouped(b: Byte, head: seq<Byte>, tail: seq<Byte>)
    ensures ([b] + head) + tail == [b] + (head + tail)
  {
  }

  /** An empty field in front adds nothing, and a byte in front of the first field comes first. */
  lemma JoinedFirst(rest: Names, b: Byte)
    requires rest.Cons?
    ensures Joined(Cons([], rest)) == Joined(rest)
    ensures Joined(Cons([b] + rest.head, rest.tail)) == [b] + Joined(rest)
  {
    assert [] + Joined(rest) == Joined(rest);
    Regrouped(b, rest.head, Joined(rest.tail));
  }

  lemma {:induction false} JoinedNonEmpty(fields: Names)
    ensures Joined(NonEmpty(fields)) == Joined(fields)
  {
    if fields.Cons? {
      JoinedNonEmpty(fields.tail);
      assert [] + Joined(fields.tail) == Joined(fields.tail);
    }
  }

  /** No byte is lost, none is invented and none moves: the tokens, joined, are the path without its delimiters. */
  lemma TokensJoin(mem: seq<Byte>, p: nat, e: nat, delim: seq<Byte>)
    requires p <= e <= |mem|
    ensures Joined(Tokens(mem, p, e, delim)) == Without(mem, p, e, delim)
  {
    JoinedFields(mem, p, e, delim);
    JoinedNonEmpty(Fields(mem, p, e, delim));
  }

  /** Every name is a run without delimiters. */
  ghost predicate AllRuns(names: Names, delim: seq<Byte>) {
    match names
    case Nil => true
    case Cons(head, tail) => head != [] && (forall i | 0 <= i < |head| :: head[i] !in delim) && AllRuns(tail, delim)
  }

  lemma {:induction false} TokensAreRuns(mem: seq<Byte>, p: nat, e: nat, delim: seq<Byte>)
    requires p <= e <= |mem|
    ensures AllRuns(Tokens(mem, p, e, delim), delim)
    decreases e - p
  {
    TokensStep(mem, p, e, delim);
    var k := Past(mem, p, e, delim);
    if k < e {
      RunOf(mem, k, e, delim);
      TokensAreRuns(mem, Behind(UpTo(mem, k, e, delim), e), e, delim);
    }
  }

  lemma {:induction false} RunOf(mem: seq<Byte>, p: nat, e: nat, delim: seq<Byte>)
    requires p <= e <= |mem|
    ensures forall i | p <= i < UpTo(mem, p, e, delim) :: mem[i] !in delim
    decreases e - p
  {
    if p < e && mem[p] !in delim {
      RunOf(mem, p + 1, e, delim);
    }
  }

  /** A path cut behind a delimiter has the tokens of both parts. */
  lemma {:induction false} TokensCut(mem: seq<Byte>, p: nat, j: nat, e: nat, delim: seq<Byte>)
    requires p <= j < e <= |mem| && mem[j] in delim
    ensures Tokens(mem, p, e, delim) == Append(Tokens(mem, p, j + 1, delim), Tokens(mem, j + 1, e, delim))
    ensures Fields(mem, p, e, delim).head == Fields(mem, p, j + 1, delim).head
    ensures NonEmpty(Fields(mem, p, e, delim).tail) ==
            Append(NonEmpty(Fields(mem, p, j + 1, delim).tail), Tokens(mem, j + 1, e, delim))
    decreases j - p
  {
    if p < j {
      TokensCut(mem, p + 1, j, e, delim);
    } else {
      assert Fields(mem, j + 1, j + 1, delim) == Cons([], Nil);
      assert Fields(mem, j, j + 1, delim) == Cons([], Cons([], Nil));
    }
  }

  /** A last component without delimiters is a token of its own. */
  lemma TokensOfName(mem: seq<Byte>, p: nat, e: nat, delim: seq<Byte>)
    requires p <= e <= |mem| && forall i | p <= i < e :: mem[i] !in delim
    ensures Tokens(mem, p, e, delim) == if p < e then Cons(mem[p..e], Nil) else Nil
  {
    TokensStep(mem, p, e, delim);
  }
}
