/** Short file names (fs/fat32/fat32.c). */
module Names {
  import opened Numbers

  // `make_83` turns a path component into the eleven bytes of a directory entry, `short_name`
  // turns those back into a printable name.  Both are given for every input, and when one
  // undoes the other is given exactly.

  const BASE: nat := 8
  const EXT: nat := 3
  const SPACE: Byte := 32
  const DOT: Byte := 46
  const SLASH: Byte := 47

  /** A C string: what follows its last byte is the terminator. */
  function At(p: seq<Byte>, i: nat): Byte {
    if i < |p| then p[i] else 0
  }

  function Upper(c: Byte): Byte {
    if 97 <= c <= 122 then c - 32 else c
  }

  function UpperAll(s: seq<Byte>): (r: seq<Byte>)
    ensures |r| == |s|
  {
    seq(|s|, i requires 0 <= i < |s| => Upper(s[i]))
  }

  function Spaces(n: nat): seq<Byte> {
    seq(n, _ => SPACE)
  }

  function Pad(s: seq<Byte>, n: nat): (r: seq<Byte>)
    requires |s| <= n
    ensures |r| == n
  {
    s + Spaces(n - |s|)
  }

  // ---------------------------------------------------------------- path component to entry

  predicate Stops(c: Byte) {
    c == 0 || c == SLASH
  }

  /** How many bytes from `k` on, `limit` at most, come before a stop or, if `dot`, before a dot. */
  function Run(p: seq<Byte>, k: nat, limit: nat, dot: bool): (r: nat)
    ensures r <= limit && (r > 0 ==> k + r <= |p|)
    ensures forall j: nat | k <= j < k + r :: !Stops(p[j]) && (dot ==> p[j] != DOT)
    ensures r < limit ==> Stops(At(p, k + r)) || (dot && At(p, k + r) == DOT)
    decreases limit, p
  {
    if limit == 0 || Stops(At(p, k)) || (dot && At(p, k) == DOT) then 0 else 1 + Run(p, k + 1, limit - 1, dot)
  }

  function Piece(p: seq<Byte>, k: nat, limit: nat, dot: bool): (s: seq<Byte>)
    ensures |s| == Run(p, k, limit, dot) <= limit
  {
    var r := Run(p, k, limit, dot);
    if r == 0 then [] else p[k..k + r]
  }

  function BaseOf(p: seq<Byte>): (b: seq<Byte>)
    ensures |b| <= BASE
  {
    Piece(p, 0, BASE, true)
  }

  /** Where the extension starts: one dot is passed over, two after a base shorter than eight. */
  function ExtStart(p: seq<Byte>): nat {
    var n := |BaseOf(p)|;
    if At(p, n) != DOT then n
    else if n < BASE && At(p, n + 1) == DOT then n + 2 else n + 1
  }

  /** Between base and extension as many dots are skipped as there are: up to two after a short base, else one. */
  lemma DotsSkipped(p: seq<Byte>)
    ensures var n, k, most := |BaseOf(p)|, ExtStart(p), if |BaseOf(p)| < BASE then 2 else 1;
            && n <= k <= n + most && (forall i | n <= i < k :: At(p, i) == DOT)
            && (k < n + most ==> At(p, k) != DOT)
  {
  }

  function ExtOf(p: seq<Byte>): (x: seq<Byte>)
    ensures |x| <= EXT
  {
    Piece(p, ExtStart(p), EXT, false)
  }

  /** The entry `make_83` builds. */
  function Entry83(p: seq<Byte>): (e: seq<Byte>)
    ensures |e| == BASE + EXT
  {
    Pad(UpperAll(BaseOf(p)), BASE) + Pad(UpperAll(ExtOf(p)), EXT)
  }

  /** Writing a piece of the path over the spaces from `to` on. */
  ghost predicate Copied(before: seq<Byte>, after: seq<Byte>, to: nat, p: seq<Byte>, k: nat, n: nat)
    requires |before| == |after| && to + n <= |after| && (n > 0 ==> k + n <= |p|)
  {
    && (forall j: nat | j < |after| && !(to <= j < to + n) :: after[j] == before[j])
    && (forall j: nat | to <= j < to + n :: after[j] == Upper(p[k + (j - to)]))
  }

  /** The base loop of `make_83`; `k` is where it leaves the path pointer. */
  method CopyBase(p: seq<Byte>, out: array<Byte>) returns (k: nat)
    requires out.Length == BASE + EXT
    modifies out
    ensures var n := Run(p, 0, BASE, true);
            && Copied(old(out[..]), out[..], 0, p, 0, n)
            && k == if n < BASE && At(p, n) == DOT then n + 1 else n
  {
    hide Stops, Upper, Run;
    var i := 0;
    k := 0;
    while !Stops(At(p, k)) && i < BASE
      invariant i == k <= BASE && Run(p, 0, BASE, true) == k + Run(p, k, BASE - k, true)
      invariant k > 0 ==> k <= |p|
      invariant Copied(old(out[..]), out[..], 0, p, 0, k)
      decreases BASE - i
    {
      var c := Upper(At(p, k));
      UpperDot(At(p, k));
      RunStep(p, k, BASE - k, true);
      if c == DOT { return k + 1; }
      out[i] := c;
      k, i := k + 1, i + 1;
    }
    RunStep(p, k, BASE - k, true);
    StopIsNotDot(At(p, k));
  }

  lemma RunStep(p: seq<Byte>, k: nat, limit: nat, dot: bool)
    ensures Run(p, k, limit, dot) ==
            if limit == 0 || Stops(At(p, k)) || (dot && At(p, k) == DOT) then 0 else 1 + Run(p, k + 1, limit - 1, dot)
  {
  }

  lemma StopIsNotDot(c: Byte)
    ensures Stops(c) ==> c != DOT
  {
  }

  lemma UpperDot(c: Byte)
    ensures Upper(c) == DOT <==> c == DOT
  {
  }

  /** The extension loop of `make_83`. */
  method CopyExt(p: seq<Byte>, start: nat, out: array<Byte>)
    requires out.Length == BASE + EXT
    modifies out
    ensures Copied(old(out[..]), out[..], BASE, p, start, Run(p, start, EXT, false))
  {
    hide Stops, Upper;
    var i, k := 0, start;
    while !Stops(At(p, k)) && i < EXT
      invariant i <= EXT && k == start + i && Run(p, start, EXT, false) == i + Run(p, k, EXT - i, false)
      invariant i > 0 ==> k <= |p|
      invariant Copied(old(out[..]), out[..], BASE, p, start, i)
      decreases EXT - i
    {
      out[BASE + i] := Upper(At(p, k));
      k, i := k + 1, i + 1;
    }
  }

  /** The two copies over a field of spaces make the entry. */
  lemma Assembled(p: seq<Byte>, mid: seq<Byte>, after: seq<Byte>)
    requires |mid| == |after| == BASE + EXT
    requires Copied(Spaces(BASE + EXT), mid, 0, p, 0, Run(p, 0, BASE, true))
    requires Copied(mid, after, BASE, p, ExtStart(p), Run(p, ExtStart(p), EXT, false))
    ensures after == Entry83(p)
  {
    hide Stops, Upper, Run, ExtStart;
    assert after[..BASE] == Pad(UpperAll(BaseOf(p)), BASE);
    assert after[BASE..] == Pad(UpperAll(ExtOf(p)), EXT);
  }

  /** `make_83`, filling the field in place. */
  method Make83(p: seq<Byte>, out: array<Byte>)
    requires out.Length == BASE + EXT
    modifies out
    ensures out[..] == Entry83(p)
  {
    hide Stops, Upper, Run, Copied, Entry83, Piece;
    for i := 0 to BASE + EXT
      invariant out[..i] == Spaces(i)
    {
      out[i] := SPACE;
    }
    assert out[..] == Spaces(BASE + EXT);
    var k := CopyBase(p, out);
    ghost var mid := out[..];
    if At(p, k) == DOT { k := k + 1; }
    CopyExt(p, k, out);
    Assembled(p, mid, out[..]);
  }

  // ---------------------------------------------------------------- entry to printable name

  type Field = e: seq<Byte> | |e| == BASE + EXT witness Spaces(BASE + EXT)

  /** How many bytes of `e[lo..hi]` come before its first space. */
  function Filled(e: seq<Byte>, lo: nat, hi: nat): (n: nat)
    requires lo <= hi <= |e|
    ensures n <= hi - lo
    ensures forall j: nat | lo <= j < lo + n :: e[j] != SPACE
    ensures lo + n < hi ==> e[lo + n] == SPACE
    decreases hi - lo
  {
    if lo == hi || e[lo] == SPACE then 0 else 1 + Filled(e, lo + 1, hi)
  }

  function BaseField(e: Field): seq<Byte> {
    e[..Filled(e, 0, BASE)]
  }

  function ExtField(e: Field): seq<Byte> {
    e[BASE..BASE + Filled(e, BASE, BASE + EXT)]
  }

  /** The whole name: base, and a dot and the extension if there is one. */
  function Printable(e: Field): seq<Byte> {
    BaseField(e) + if e[BASE] == SPACE then [] else [DOT] + ExtField(e)
  }

  function Shorter(a: nat, b: nat): nat {
    if a < b then a else b
  }

  /** A buffer with `s` written into it at `at`. */
  function Overlaid(was: seq<Byte>, at: nat, s: seq<Byte>): seq<Byte>
    requires at + |s| <= |was|
  {
    was[..at] + s + was[at + |s|..]
  }

  lemma OverlaidNext(was: seq<Byte>, at: nat, s: seq<Byte>, c: Byte)
    requires at + |s| < |was|
    ensures |Overlaid(was, at, s)| == |was|
    ensures Overlaid(was, at, s)[at + |s| := c] == Overlaid(was, at, s + [c])
  {
  }

  lemma OverlaidOn(was: seq<Byte>, s: seq<Byte>, more: seq<Byte>)
    requires |s| + |more| <= |was|
    ensures |Overlaid(was, 0, s)| == |was|
    ensures Overlaid(Overlaid(was, 0, s), |s|, more) == Overlaid(was, 0, s + more)
  {
  }

  method Put(out: array<Byte>, ghost was: seq<Byte>, ghost at: nat, ghost s: seq<Byte>, i: nat, c: Byte)
    requires |was| == out.Length && i == at + |s| < |was| && out[..] == Overlaid(was, at, s)
    modifies out
    ensures out[..] == Overlaid(was, at, s + [c])
  {
    hide Overlaid;
    ghost var now := out[..];
    out[i] := c;
    assert out[..] == now[i := c];
    OverlaidNext(was, at, s, c);
  }

  /** One of the two copying loops of `short_name`: a field up to its first space, while there is room. */
  method CopyField(e: Field, lo: nat, hi: nat, out: array<Byte>, at: nat) returns (i: nat)
    requires lo <= hi <= BASE + EXT && at < out.Length
    modifies out
    ensures i == at + Shorter(Filled(e, lo, hi), out.Length - 1 - at)
    ensures out[..] == Overlaid(old(out[..]), at, e[lo..lo + (i - at)])
  {
    hide Filled, Overlaid;
    i := at;
    var j := lo;
    ghost var was := out[..];
    OverlaidNothing(was, at);
    assert e[lo..lo] == [];
    while i + 1 < out.Length && j < hi && e[j] != SPACE
      invariant lo <= j <= hi && i == at + (j - lo) && i < out.Length
      invariant Filled(e, lo, hi) == (j - lo) + Filled(e, j, hi)
      invariant out[..] == Overlaid(was, at, e[lo..j])
    {
      FilledStep(e, j, hi);
      assert e[lo..j] + [e[j]] == e[lo..j + 1];
      Put(out, was, at, e[lo..j], i, e[j]);
      i, j := i + 1, j + 1;
    }
    FilledStep(e, j, hi);
  }

  lemma OverlaidNothing(was: seq<Byte>, at: nat)
    requires at <= |was|
    ensures Overlaid(was, at, []) == was
  {
  }

  /** `short_name` into a buffer: as much of the name as fits before the terminator. */
  method ShortName(e: Field, out: array<Byte>)
    modifies out
    ensures out.Length > 0 ==>
              var n := Shorter(|Printable(e)|, out.Length - 1);
              out[..] == Overlaid(old(out[..]), 0, Printable(e)[..n] + [0])
  {
    hide Filled, Overlaid;
    if out.Length == 0 { return; }
    ghost var was := out[..];
    var i := CopyField(e, 0, BASE, out, 0);
    ghost var done := e[0..i];
    if e[BASE] != SPACE && i + 1 < out.Length {
      Put(out, was, 0, done, i, DOT);
      done := done + [DOT];
      i := CopyField(e, BASE, BASE + EXT, out, i + 1);
      ghost var ext := e[BASE..BASE + (i - |done|)];
      OverlaidOn(was, done, ext);
      done := done + ext;
    }
    assert done == Printable(e)[..Shorter(|Printable(e)|, out.Length - 1)];
    Put(out, was, 0, done, i, 0);
  }

  lemma FilledStep(e: seq<Byte>, lo: nat, hi: nat)
    requires lo <= hi <= |e|
    ensures Filled(e, lo, hi) == if lo == hi || e[lo] == SPACE then 0 else 1 + Filled(e, lo + 1, hi)
  {
  }

  // ---------------------------------------------------------------- round trips

  /** What `make_83` could have produced in a field: spaces only at the end, nothing it treats specially. */
  ghost predicate Clean(field: seq<Byte>, s: seq<Byte>, dot: bool)
    requires |s| <= |field|
  {
    field == Pad(s, |field|) && forall j: nat | j < |s| :: !Stops(s[j]) && Upper(s[j]) == s[j] && (dot ==> s[j] != DOT)
  }

  /** The entries that their printable name finds again. */
  ghost predicate Recoverable(e: Field) {
    && Clean(e[..BASE], BaseField(e), true)
    && Clean(e[BASE..], ExtField(e), false)
    && (|BaseField(e)| < BASE ==> e[BASE] != DOT)
  }

  lemma {:induction false} RunUnique(p: seq<Byte>, k: nat, limit: nat, dot: bool, r: nat)
    requires r <= limit && (r > 0 ==> k + r <= |p|)
    requires forall j: nat | k <= j < k + r :: !Stops(p[j]) && (dot ==> p[j] != DOT)
    requires r < limit ==> Stops(At(p, k + r)) || (dot && At(p, k + r) == DOT)
    ensures Run(p, k, limit, dot) == r
    decreases limit
  {
    hide Stops;
    if r == 0 {
    } else {
      RunUnique(p, k + 1, limit - 1, dot, r - 1);
    }
  }

  /** Where the printable name of an entry has its parts. */
  lemma PrintableAt(e: Field)
    ensures var p, n, m := Printable(e), |BaseField(e)|, |ExtField(e)|;
            && p[..n] == BaseField(e)
            && (m == 0 <==> e[BASE] == SPACE)
            && |p| == (if m == 0 then n else n + 1 + m)
            && (m > 0 ==> p[n] == DOT && p[n + 1..] == ExtField(e))
  {
  }

  /** `s` is what a field holds before its first space. */
  ghost predicate Holds(field: seq<Byte>, s: seq<Byte>) {
    && |s| <= |field| && field[..|s|] == s
    && (forall j: nat | j < |s| :: s[j] != SPACE)
    && (|s| < |field| ==> field[|s|] == SPACE)
  }

  ghost predicate Plain(s: seq<Byte>, dot: bool) {
    forall j: nat | j < |s| :: !Stops(s[j]) && (dot ==> s[j] != DOT)
  }

  /** A field read back as a prefix of what it holds is that field only if nothing was lost or changed. */
  lemma FieldBack(field: seq<Byte>, s: seq<Byte>, got: seq<Byte>, dot: bool)
    requires Holds(field, s) && got <= s && Plain(got, dot)
    requires Pad(UpperAll(got), |field|) == field
    ensures got == s && Clean(field, s, dot)
  {
    hide Stops, Upper;
    assert forall j: nat | |got| <= j < |field| :: field[j] == SPACE;
    assert |s| > 0 ==> s[|s| - 1] == field[|s| - 1] != SPACE;
    assert UpperAll(s) == s by { assert forall j: nat | j < |s| :: UpperAll(s)[j] == field[j]; }
  }

  lemma FieldKept(field: seq<Byte>, s: seq<Byte>, dot: bool)
    requires |s| <= |field| && Clean(field, s, dot)
    ensures Pad(UpperAll(s), |field|) == field && Plain(s, dot)
  {
    hide Stops, Upper;
    assert UpperAll(s) == s;
  }

  /** The base field comes back exactly when it is clean. */
  lemma BaseComesBack(e: Field)
    ensures Clean(e[..BASE], BaseField(e), true) <==> Pad(UpperAll(BaseOf(Printable(e))), BASE) == e[..BASE]
    ensures Clean(e[..BASE], BaseField(e), true) ==> |BaseOf(Printable(e))| == |BaseField(e)|
  {
    hide Stops, Run, Upper, UpperAll, Clean, Printable;
    var p, b := Printable(e), BaseField(e);
    PrintableAt(e);
    ZeroStops();
    var got := BaseOf(p);
    assert |got| <= |b| by {
      assert |b| < |p| ==> p[|b|] == DOT;
    }
    assert got == b[..|got|];
    if Clean(e[..BASE], b, true) {
      FieldKept(e[..BASE], b, true);
      assert forall j: nat | j < |b| :: p[j] == b[j];
      RunUnique(p, 0, BASE, true, |b|);
    }
    if Pad(UpperAll(got), BASE) == e[..BASE] {
      FieldBack(e[..BASE], b, got, true);
    }
  }

  /** What `make_83` takes as the extension of a name with a dot after its base. */
  lemma ExtAfterDot(p: seq<Byte>, x: seq<Byte>)
    requires var n := |BaseOf(p)|; |p| == n + 1 + |x| && p[n] == DOT && p[n + 1..] == x && 0 < |x| <= EXT
    ensures if |BaseOf(p)| < BASE && x[0] == DOT then |ExtOf(p)| < |x|
            else ExtOf(p) <= x && (Plain(x, false) ==> ExtOf(p) == x)
    ensures Plain(ExtOf(p), false)
  {
    hide Stops, Run, BaseOf;
    var n := |BaseOf(p)|;
    ZeroStops();
    assert At(p, n + 1) == p[n + 1..][0];
    if !(n < BASE && x[0] == DOT) {
      assert forall j: nat | j < |x| :: p[n + 1 + j] == x[j];
      assert ExtOf(p) == x[..|ExtOf(p)|];
      if Plain(x, false) {
        assert forall j: nat | n + 1 <= j < n + 1 + |x| :: p[j] == x[j - (n + 1)];
        RunUnique(p, n + 1, EXT, false, |x|);
      }
    }
  }

  lemma NoExt(p: seq<Byte>)
    requires |BaseOf(p)| == |p|
    ensures ExtOf(p) == []
  {
    ZeroStops();
  }

  /** Given the base, the extension comes back exactly when it is clean and its first byte is no second dot. */
  lemma ExtComesBack(e: Field)
    requires |BaseOf(Printable(e))| == |BaseField(e)|
    ensures Clean(e[BASE..], ExtField(e), false) && (|BaseField(e)| < BASE ==> e[BASE] != DOT)
            <==> Pad(UpperAll(ExtOf(Printable(e))), EXT) == e[BASE..]
  {
    hide Stops, Run, Upper, UpperAll, Clean, Printable, ExtOf, BaseOf;
    var p, x := Printable(e), ExtField(e);
    PrintableAt(e);
    var got := ExtOf(p);
    if x == [] { NoExt(p); } else { ExtAfterDot(p, x); }
    if |BaseField(e)| < BASE && e[BASE] == DOT {
      assert Pad(UpperAll(got), EXT)[|x| - 1] == SPACE;
      assert e[BASE..][|x| - 1] == x[|x| - 1] != SPACE;
    } else {
      if Clean(e[BASE..], x, false) {
        FieldKept(e[BASE..], x, false);
      }
      if Pad(UpperAll(got), EXT) == e[BASE..] {
        FieldBack(e[BASE..], x, got, false);
      }
    }
  }

  lemma ZeroStops()
    ensures Stops(0)
  {
  }

  /** Printing an entry's name and parsing it again gives the entry exactly when it is recoverable. */
  lemma RoundTripIff(e: Field)
    ensures Entry83(Printable(e)) == e <==> Recoverable(e)
  {
    hide Stops, Run, Upper, UpperAll, Clean, Printable, ExtOf, BaseOf, Pad;
    var p := Printable(e);
    BaseComesBack(e);
    assert e == e[..BASE] + e[BASE..];
    assert Entry83(p)[..BASE] == Pad(UpperAll(BaseOf(p)), BASE);
    assert Entry83(p)[BASE..] == Pad(UpperAll(ExtOf(p)), EXT);
    if |BaseOf(p)| == |BaseField(e)| { ExtComesBack(e); }
  }

  /** A name from its two parts. */
  function NameOf(b: seq<Byte>, x: seq<Byte>): seq<Byte> {
    b + if x == [] then [] else [DOT] + x
  }

  /** Parts that fit their fields and hold nothing treated specially. */
  ghost predicate Legal(b: seq<Byte>, x: seq<Byte>) {
    && |b| <= BASE && |x| <= EXT && Plain(b, true) && Plain(x, false) && SPACE !in b && SPACE !in x
    && (x != [] && |b| < BASE ==> x[0] != DOT)
  }

  lemma PartsOf(b: seq<Byte>, x: seq<Byte>)
    requires Legal(b, x)
    ensures BaseOf(NameOf(b, x)) == b && ExtOf(NameOf(b, x)) == x
  {
    hide Stops, Run, ExtOf;
    var p := NameOf(b, x);
    ZeroStops();
    assert forall j: nat | j < |b| :: p[j] == b[j];
    RunUnique(p, 0, BASE, true, |b|);
    if x == [] { NoExt(p); } else { ExtAfterDot(p, x); }
  }

  lemma {:induction false} FilledUnique(e: seq<Byte>, lo: nat, hi: nat, n: nat)
    requires lo + n <= hi <= |e|
    requires forall j: nat | lo <= j < lo + n :: e[j] != SPACE
    requires lo + n < hi ==> e[lo + n] == SPACE
    ensures Filled(e, lo, hi) == n
    decreases n
  {
    if n == 0 {
    } else {
      FilledUnique(e, lo + 1, hi, n - 1);
    }
  }

  /** Small letters become capitals, and everything else stays. */
  lemma UpperIs(c: Byte)
    ensures if 'a' as int <= c <= 'z' as int then Upper(c) - 'A' as int == c - 'a' as int else Upper(c) == c
  {
  }

  lemma UpperSlash(c: Byte)
    ensures Upper(c) == SLASH <==> c == SLASH
    ensures Upper(c) == 0 <==> c == 0
  {
  }

  lemma UpperSpace(c: Byte)
    ensures Upper(c) == SPACE <==> c == SPACE
    ensures Stops(Upper(c)) <==> Stops(c)
    ensures Upper(Upper(c)) == Upper(c)
  {
  }

  /** A name put into an entry and printed again is the name in upper case. */
  lemma NamePrints(b: seq<Byte>, x: seq<Byte>)
    requires Legal(b, x)
    ensures Printable(Entry83(NameOf(b, x))) == UpperAll(NameOf(b, x))
  {
    hide Stops, Run, Upper, BaseOf, ExtOf, Filled, NameOf;
    PartsOf(b, x);
    var e := Entry83(NameOf(b, x));
    forall c: Byte ensures Upper(c) == SPACE <==> c == SPACE { UpperSpace(c); }
    FilledUnique(e, 0, BASE, |b|);
    FilledUnique(e, BASE, BASE + EXT, |x|);
    UpperName(b, x);
    assert BaseField(e) == UpperAll(b) && ExtField(e) == UpperAll(x);
  }

  lemma UpperName(b: seq<Byte>, x: seq<Byte>)
    ensures UpperAll(NameOf(b, x)) == NameOf(UpperAll(b), UpperAll(x))
    ensures NameOf(UpperAll(b), UpperAll(x)) == UpperAll(b) + if |x| == 0 then [] else [DOT] + UpperAll(x)
  {
    UpperDot(DOT);
  }

  lemma {:induction false} RunUpper(p: seq<Byte>, k: nat, limit: nat, dot: bool)
    ensures Run(UpperAll(p), k, limit, dot) == Run(p, k, limit, dot)
    decreases limit
  {
    hide Stops, Upper;
    UpperSpace(At(p, k));
    UpperDot(At(p, k));
    if limit == 0 {
    } else {
      RunUpper(p, k + 1, limit - 1, dot);
    }
  }

  lemma PieceUpper(p: seq<Byte>, k: nat, limit: nat, dot: bool)
    ensures UpperAll(Piece(UpperAll(p), k, limit, dot)) == UpperAll(Piece(p, k, limit, dot))
  {
    hide Stops, Upper, Run;
    RunUpper(p, k, limit, dot);
    forall c: Byte ensures Upper(Upper(c)) == Upper(c) { UpperSpace(c); }
  }

  /** Case does not matter. */
  lemma CaseInsensitive(p: seq<Byte>)
    ensures Entry83(UpperAll(p)) == Entry83(p)
  {
    hide Stops, Upper, Run, Piece;
    RunUpper(p, 0, BASE, true);
    PieceUpper(p, 0, BASE, true);
    var n := Run(p, 0, BASE, true);
    UpperDot(At(p, n));
    UpperDot(At(p, n + 1));
    assert ExtStart(UpperAll(p)) == ExtStart(p);
    PieceUpper(p, ExtStart(p), EXT, false);
  }
}
