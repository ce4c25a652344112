/** core/vfs: files behind a firmware image, as vfs-concat.c writes and vfs_inline.c reads them. */
module VfsImage {
  import opened Bits
  import opened Crc
  import opened Numbers
  import opened Options

  const MAGIC: Byte := 0x23
  const ERASED: Byte := 0xFF
  const FNLEN := 6

  // The magic byte, the name, the length and the checksum.
  const HEADER := 10

  datatype File = File(name: seq<Byte>, content: seq<Byte>)

  predicate IsName(name: seq<Byte>) {
    forall i :: 0 <= i < |name| ==> name[i] != 0
  }

  predicate Storable(f: File) {
    |f.name| <= FNLEN && IsName(f.name) && |f.content| < 0x1_0000
  }

  function Filler(b: Byte, n: nat): (s: seq<Byte>)
    ensures |s| == n
  {
    seq(n, _ => b)
  }

  // strncpy into the name field
  function NameField(name: seq<Byte>): (s: seq<Byte>)
    requires |name| <= FNLEN
    ensures |s| == FNLEN
  {
    name + Filler(0, FNLEN - |name|)
  }

  function Header(f: File): (h: seq<Byte>)
    requires Storable(f)
    ensures |h| == HEADER
  {
    var node := NameField(f.name) + LittleEndian(|f.content|, 2);
    [MAGIC] + node + [Checksum(node)]
  }

  /** In the image a header is the octet 0x23, the name with zeros up to six octets, the length with
      its low octet first, and the checksum of the eight octets before it. */
  lemma HeaderLayout(f: File)
    requires Storable(f)
    ensures
      var h := Header(f);
      && |h| == 10 && h[0] == 0x23
      && (forall k :: 0 <= k < 6 ==> h[1 + k] == if k < |f.name| then f.name[k] else 0)
      && h[7] as nat + 0x100 * h[8] as nat == |f.content|
      && h[9] == Checksum(h[1..9])
  {
    var h := Header(f);
    HeaderParts(f);
    LengthInHeader(h[7], h[8], |f.content|);
    assert forall k :: 0 <= k < 6 ==> h[1 + k] == h[1..7][k];
  }

  lemma LengthInHeader(b0: Byte, b1: Byte, n: nat)
    requires n < 0x1_0000 && b0 == LittleEndian(n, 2)[0] && b1 == LittleEndian(n, 2)[1]
    ensures b0 as nat + 0x100 * b1 as nat == n
  {
    ValueOf16(n);
    ValueIsNumber(b0);
    ValueIsNumber(b1);
  }

  // The image filled up to a page boundary.
  function Aligned(img: seq<Byte>, p: nat): (s: seq<Byte>)
    requires p > 0
    ensures |s| == PageStart(Pages(|img|, p), p)
  {
    PagesHold(|img|, p);
    img + Filler(ERASED, PageStart(Pages(|img|, p), p) - |img|)
  }

  function Appended(img: seq<Byte>, p: nat, f: File): seq<Byte>
    requires p > 0 && Storable(f)
  {
    Aligned(img, p) + Header(f) + f.content
  }

  lemma PartsOf<T>(a: seq<T>, b: seq<T>, c: seq<T>)
    ensures var s := a + b + c;
      s[..|a|] == a && s[|a|..|a| + |b|] == b && s[|a| + |b|..] == c
  {
  }

  /** An appended file begins at the next page boundary, over octets 0xFF behind the image before. */
  lemma AppendedLayout(img: seq<Byte>, p: nat, f: File)
    requires p > 0 && Storable(f)
    ensures
      var o, now := PageStart(Pages(|img|, p), p), Appended(img, p, f);
      && |img| <= o < |img| + p && |now| == o + 10 + |f.content|
      && now[..|img|] == img && (forall j :: |img| <= j < o ==> now[j] == 0xFF)
      && now[o..o + 10] == Header(f) && now[o + 10..] == f.content
  {
    PagesHold(|img|, p);
    var o := PageStart(Pages(|img|, p), p);
    var a := Aligned(img, p);
    assert a[..|img|] == img && forall j :: |img| <= j < o ==> a[j] == ERASED;
    PartsOf(a, Header(f), f.content);
    assert Appended(img, p, f)[..|img|] == a[..|img|];
  }

  predicate AllStorable(fs: seq<File>) {
    forall i :: 0 <= i < |fs| ==> Storable(fs[i])
  }

  // The image after vfs-concat was run for each file in turn.
  function Built(base: seq<Byte>, p: nat, fs: seq<File>): seq<Byte>
    requires p > 0 && AllStorable(fs)
    decreases |fs|
  {
    if |fs| == 0 then base else Appended(Built(base, p, fs[..|fs| - 1]), p, fs[|fs| - 1])
  }

  // The page at which file i begins.
  function HeaderPage(base: seq<Byte>, p: nat, fs: seq<File>, i: nat): nat
    requires p > 0 && AllStorable(fs) && i < |fs|
  {
    Pages(|Built(base, p, fs[..i])|, p)
  }

  // The next character of a text, or its terminator.
  function Next(s: seq<Byte>): Byte {
    if |s| == 0 then 0 else s[0]
  }

  // strncmp: no difference within n characters.
  predicate Agree(s: seq<Byte>, t: seq<Byte>, n: nat)
    decreases n
  {
    n == 0 || (Next(s) == Next(t) && (Next(s) == 0 || Agree(s[1..], t[1..], n - 1)))
  }

  // The name as far as the field holds it.
  function Cut(name: seq<Byte>): seq<Byte> {
    if |name| > FNLEN then name[..FNLEN] else name
  }

  // A header for the name stands at an offset.
  predicate Matches(flash: seq<Byte>, o: nat, name: seq<Byte>) {
    && o + HEADER <= |flash|
    && flash[o] == MAGIC
    && flash[o + 9] == Checksum(flash[o + 1..o + 9])
    && Agree(flash[o + 1..o + 7], name, FNLEN)
  }

  // A name filled up with zeros to n characters agrees with a text that is it, or begins with it
  // if it fills them all.
  lemma {:induction false} FilledAgrees(stored: seq<Byte>, name: seq<Byte>, n: nat)
    requires |stored| <= n && IsName(stored) && IsName(name)
    ensures Agree(stored + Filler(0, n - |stored|), name, n) <==> stored == if |name| <= n then name else name[..n]
    decreases n
  {
    var field := stored + Filler(0, n - |stored|);
    if |stored| > 0 && |name| > 0 {
      assert field[1..] == stored[1..] + Filler(0, n - |stored|);
      FilledAgrees(stored[1..], name[1..], n - 1);
      assert stored == [stored[0]] + stored[1..] && name == [name[0]] + name[1..];
    }
  }

  lemma SliceOfSlice<T>(s: seq<T>, o: nat, n: nat, i: nat, j: nat)
    requires i <= j <= n && o + n <= |s|
    ensures s[o + i..o + j] == s[o..o + n][i..j]
  {
    var t := s[o..o + n];
    assert forall k :: 0 <= k < j - i ==> s[o + i..o + j][k] == t[i..j][k];
  }

  lemma HeaderParts(f: File)
    requires Storable(f)
    ensures
      var h, l, node := Header(f), LittleEndian(|f.content|, 2), NameField(f.name) + LittleEndian(|f.content|, 2);
      && h[0] == MAGIC && h[1..9] == node && h[1..7] == NameField(f.name) && h[7] == l[0] && h[8] == l[1]
      && h[9] == Checksum(node)
  {
    var node := NameField(f.name) + LittleEndian(|f.content|, 2);
    assert Header(f)[1..9] == node;
    assert Header(f)[1..7] == node[..6];
  }

  lemma HeaderInFlash(flash: seq<Byte>, o: nat, f: File)
    requires Storable(f) && o + HEADER <= |flash| && flash[o..o + HEADER] == Header(f)
    ensures
      var l, node := LittleEndian(|f.content|, 2), NameField(f.name) + LittleEndian(|f.content|, 2);
      && flash[o] == MAGIC && flash[o + 1..o + 9] == node && flash[o + 1..o + 7] == NameField(f.name)
      && flash[o + 7] == l[0] && flash[o + 8] == l[1] && flash[o + 9] == Checksum(node)
  {
    HeaderParts(f);
    SliceOfSlice(flash, o, HEADER, 1, 9);
    SliceOfSlice(flash, o, HEADER, 1, 7);
    var h := flash[o..o + HEADER];
    assert flash[o] == h[0] && flash[o + 7] == h[7] && flash[o + 8] == h[8] && flash[o + 9] == h[9];
  }

  /** A written header is recognised under the file's name, and under longer names that begin
      with it if it fills the field, and under no other. */
  lemma HeaderMatches(flash: seq<Byte>, o: nat, f: File, name: seq<Byte>)
    requires Storable(f) && IsName(name)
    requires o + HEADER <= |flash| && flash[o..o + HEADER] == Header(f)
    ensures |name| <= 6 ==> (Matches(flash, o, name) <==> f.name == name)
    ensures |name| > 6 ==> (Matches(flash, o, name) <==> f.name == name[..6])
    ensures Value16(flash[o + 7], flash[o + 8]) == |f.content|
  {
    HeaderField(flash, o, f);
    MatchesByName(flash, o, NameField(f.name), name, FNLEN);
    FieldAgrees(f.name, name, FNLEN);
    HeaderLength(flash, o, f);
  }

  lemma HeaderField(flash: seq<Byte>, o: nat, f: File)
    requires Storable(f) && o + HEADER <= |flash| && flash[o..o + HEADER] == Header(f)
    ensures flash[o] == MAGIC && flash[o + 9] == Checksum(flash[o + 1..o + 9])
    ensures flash[o + 1..o + 7] == NameField(f.name)
  {
    HeaderInFlash(flash, o, f);
  }

  lemma FieldAgrees(stored: seq<Byte>, name: seq<Byte>, n: nat)
    requires |stored| <= n && n == FNLEN && IsName(stored) && IsName(name)
    ensures Agree(NameField(stored), name, n) <==> stored == if |name| <= n then name else name[..n]
  {
    FilledAgrees(stored, name, n);
  }

  lemma HeaderLength(flash: seq<Byte>, o: nat, f: File)
    requires Storable(f) && o + HEADER <= |flash| && flash[o..o + HEADER] == Header(f)
    ensures Value16(flash[o + 7], flash[o + 8]) == |f.content|
  {
    HeaderInFlash(flash, o, f);
    ValueOf16(|f.content|);
  }

  lemma MatchesByName(flash: seq<Byte>, o: nat, field: seq<Byte>, name: seq<Byte>, n: nat)
    requires n == FNLEN && o + HEADER <= |flash| && flash[o] == MAGIC && flash[o + 9] == Checksum(flash[o + 1..o + 9])
    requires flash[o + 1..o + 7] == field
    ensures Matches(flash, o, name) <==> Agree(field, name, n)
  {
  }

  // --- what a built image holds ------------------------------------------------------------

  lemma AlignedKeeps(img: seq<Byte>, p: nat, f: File)
    requires p > 0 && Storable(f)
    ensures img <= Appended(img, p, f)
    ensures
      var o, all := PageStart(Pages(|img|, p), p), Appended(img, p, f);
      && o >= |img| && o + HEADER + |f.content| == |all|
      && all[o..o + HEADER] == Header(f) && all[o + HEADER..] == f.content
  {
    PagesHold(|img|, p);
  }

  // Where file i stands in a flash memory.
  ghost predicate Stands(flash: seq<Byte>, o: nat, f: File)
    requires Storable(f)
  {
    && o + HEADER + |f.content| <= |flash|
    && flash[o..o + HEADER] == Header(f)
    && flash[o + HEADER..o + HEADER + |f.content|] == f.content
  }

  lemma StandsInLonger(img: seq<Byte>, flash: seq<Byte>, o: nat, f: File)
    requires Storable(f) && Stands(img, o, f) && img <= flash
    ensures Stands(flash, o, f)
  {
    assert flash[..|img|] == img;
    var n := o + HEADER + |f.content|;
    assert flash[o..o + HEADER] == img[o..o + HEADER];
    assert flash[o + HEADER..n] == img[o + HEADER..n];
  }

  /** Every file stands where it was appended, in the image and any memory that begins with it. */
  lemma {:induction false} FilesStand(base: seq<Byte>, p: nat, fs: seq<File>, i: nat, flash: seq<Byte>)
    requires p > 0 && AllStorable(fs) && i < |fs| && Built(base, p, fs) <= flash
    ensures Stands(flash, PageStart(HeaderPage(base, p, fs, i), p), fs[i])
    decreases |fs|
  {
    var n := |fs| - 1;
    var img := Built(base, p, fs[..n]);
    AlignedKeeps(img, p, fs[n]);
    if i == n {
      StandsInLonger(Built(base, p, fs), flash, PageStart(HeaderPage(base, p, fs, i), p), fs[i]);
    } else {
      assert fs[..n][..i] == fs[..i];
      FilesStand(base, p, fs[..n], i, flash);
    }
  }

  lemma {:induction false} ImagesGrow(base: seq<Byte>, p: nat, fs: seq<File>, i: nat)
    requires p > 0 && AllStorable(fs) && i <= |fs|
    ensures |base| <= |Built(base, p, fs[..i])| <= |Built(base, p, fs)|
    decreases |fs|
  {
    if |fs| > 0 {
      var n := |fs| - 1;
      AlignedKeeps(Built(base, p, fs[..n]), p, fs[n]);
      if i <= n {
        assert fs[..n][..i] == fs[..i];
        ImagesGrow(base, p, fs[..n], i);
      } else {
        assert fs[..i] == fs;
        ImagesGrow(base, p, fs[..n], n);
        assert fs[..n][..n] == fs[..n];
      }
    } else {
      assert fs[..i] == fs;
    }
  }

  lemma MorePages(m: nat, n: nat, p: nat)
    requires p > 0 && n >= PageStart(Pages(m, p), p) + 1
    ensures Pages(m, p) < Pages(n, p)
  {
    PagesHold(n, p);
    SamePage(Pages(m, p), Pages(n, p), p);
  }

  /** Files appended later begin at later pages. */
  lemma PagesIncrease(base: seq<Byte>, p: nat, fs: seq<File>, i: nat, j: nat)
    requires p > 0 && AllStorable(fs) && i < j < |fs|
    ensures HeaderPage(base, p, fs, i) < HeaderPage(base, p, fs, j)
  {
    var img := Built(base, p, fs[..i]);
    assert fs[..i + 1][..i] == fs[..i] && fs[..j][..i + 1] == fs[..i + 1];
    AlignedKeeps(img, p, fs[i]);
    ImagesGrow(base, p, fs[..j], i + 1);
    MorePages(|img|, |Built(base, p, fs[..j])|, p);
  }

  // --- the search of vfs_inline_open --------------------------------------------------------

  // Whether a page begins with a header that is looked for.
  type Test = nat -> bool

  // The last of the pages k - 1, ..., 1 that passes; page 0 is not looked at.
  function LastHit(hit: Test, k: nat): (r: Option<nat>)
    ensures r.Some? ==> 0 < r.value < k && hit(r.value)
    ensures forall j :: (if r.Some? then r.value else 0) < j < k ==> !hit(j)
  {
    if k <= 1 then None else if hit(k - 1) then Some(k - 1) else LastHit(hit, k - 1)
  }

  // The last of the names that is the given one.
  function LastOf<N(==)>(names: seq<N>, name: N): (r: Option<nat>)
    ensures r.Some? ==> r.value < |names| && names[r.value] == name
    ensures forall j :: (if r.Some? then r.value + 1 else 0) <= j < |names| ==> names[j] != name
  {
    if |names| == 0 then None
    else if names[|names| - 1] == name then Some(|names| - 1)
    else LastOf(names[..|names| - 1], name)
  }

  // Files of these names begin at these pages, each later than the one before.
  ghost predicate Listed<N>(hit: Test, k: nat, pages: seq<nat>, names: seq<N>, name: N) {
    && |pages| == |names|
    && (forall i :: 0 <= i < |pages| ==> pages[i] < k && (hit(pages[i]) <==> names[i] == name))
    && (forall i, j :: 0 <= i < j < |pages| ==> pages[i] < pages[j])
  }

  // Behind page g nothing else passes.
  ghost predicate NothingElse(hit: Test, k: nat, pages: seq<nat>, g: nat) {
    forall j :: g < j < k && hit(j) ==> j in pages
  }

  // The page of the last file of the name; page 0 also stands for no page.
  function LastPage<N(==)>(pages: seq<nat>, names: seq<N>, name: N): nat
    requires |pages| == |names|
  {
    var i := LastOf(names, name);
    if i.None? then 0 else pages[i.value]
  }

  lemma NoneListedIsLater<N>(hit: Test, k: nat, pages: seq<nat>, names: seq<N>, name: N, h: nat)
    requires Listed(hit, k, pages, names, name) && h < |pages| && hit(pages[h])
    ensures pages[h] <= LastPage(pages, names, name)
  {
    var i := LastOf(names, name);
    assert names[h] == name;
    assert i.Some? && h <= i.value;
  }

  lemma LastHitIsLastPage<N>(hit: Test, k: nat, pages: seq<nat>, names: seq<N>, name: N)
    requires Listed(hit, k, pages, names, name)
    ensures
      var g := LastPage(pages, names, name);
      LastHit(hit, k) == (if g == 0 then None else Some(g)) <==> NothingElse(hit, k, pages, g)
  {
    var i, r, g := LastOf(names, name), LastHit(hit, k), LastPage(pages, names, name);
    if i.Some? {
      assert hit(pages[i.value]);
    }
    if r.Some? && r.value in pages {
      var h :| 0 <= h < |pages| && pages[h] == r.value;
      NoneListedIsLater(hit, k, pages, names, name, h);
    }
  }

  function TestFor(flash: seq<Byte>, p: nat, name: seq<Byte>): Test {
    (k: nat) => Matches(flash, PageStart(k, p), name)
  }

  function NamesOf(fs: seq<File>): (names: seq<seq<Byte>>)
    ensures |names| == |fs| && forall i :: 0 <= i < |fs| ==> names[i] == fs[i].name
  {
    seq(|fs|, i requires 0 <= i < |fs| => fs[i].name)
  }

  function HeaderPages(base: seq<Byte>, p: nat, fs: seq<File>): (pages: seq<nat>)
    requires p > 0 && AllStorable(fs)
    ensures |pages| == |fs| && forall i :: 0 <= i < |fs| ==> pages[i] == HeaderPage(base, p, fs, i)
  {
    seq(|fs|, i requires 0 <= i < |fs| => HeaderPage(base, p, fs, i))
  }

  /** A file begins in the first page exactly if it was the first one appended to an empty image. */
  lemma InFirstPage(base: seq<Byte>, p: nat, fs: seq<File>, i: nat)
    requires p > 0 && AllStorable(fs) && i < |fs|
    ensures HeaderPage(base, p, fs, i) == 0 <==> |base| == 0 && i == 0
  {
    if i > 0 {
      PagesIncrease(base, p, fs, 0, i);
    } else {
      assert fs[..0] == [];
      PagesHold(|base|, p);
    }
  }

  lemma PageInside(flash: seq<Byte>, p: nat, g: nat, k: nat, f: File)
    requires p > 0 && Storable(f) && Stands(flash, PageStart(g, p), f) && |flash| == PageStart(k, p)
    ensures g < k
  {
    SamePage(g, k, p);
  }

  lemma PageMatches(flash: seq<Byte>, p: nat, g: nat, f: File, name: seq<Byte>)
    requires p > 0 && Storable(f) && Stands(flash, PageStart(g, p), f) && IsName(name)
    ensures TestFor(flash, p, name)(g) <==> f.name == Cut(name)
  {
    HeaderMatches(flash, PageStart(g, p), f, name);
  }

  lemma PageOfFile(flash: seq<Byte>, base: seq<Byte>, p: nat, fs: seq<File>, name: seq<Byte>, k: nat, i: nat, hit: Test)
    requires p > 0 && AllStorable(fs) && i < |fs| && IsName(name) && Built(base, p, fs) <= flash
    requires |flash| == PageStart(k, p) && hit == TestFor(flash, p, name)
    ensures HeaderPage(base, p, fs, i) < k
    ensures hit(HeaderPage(base, p, fs, i)) <==> fs[i].name == Cut(name)
  {
    FilesStand(base, p, fs, i, flash);
    PageInside(flash, p, HeaderPage(base, p, fs, i), k, fs[i]);
    PageMatches(flash, p, HeaderPage(base, p, fs, i), fs[i], name);
  }

  lemma FilesAreListed(flash: seq<Byte>, base: seq<Byte>, p: nat, fs: seq<File>, name: seq<Byte>, k: nat, hit: Test,
                       pages: seq<nat>, names: seq<seq<Byte>>)
    requires p > 0 && AllStorable(fs) && IsName(name) && Built(base, p, fs) <= flash && |flash| == PageStart(k, p)
    requires hit == TestFor(flash, p, name)
    requires |pages| == |names| == |fs|
    requires forall i :: 0 <= i < |fs| ==> pages[i] == HeaderPage(base, p, fs, i)
    requires forall i :: 0 <= i < |fs| ==> names[i] == fs[i].name
    ensures Listed(hit, k, pages, names, Cut(name))
  {
    forall i | 0 <= i < |pages|
      ensures pages[i] < k && (hit(pages[i]) <==> names[i] == Cut(name))
    {
      PageOfFile(flash, base, p, fs, name, k, i, hit);
    }
    forall i, j | 0 <= i < j < |pages|
      ensures pages[i] < pages[j]
    {
      PagesIncrease(base, p, fs, i, j);
    }
  }

  // The page that the search should find, or 0.
  function SoughtPage(base: seq<Byte>, p: nat, fs: seq<File>, name: seq<Byte>): nat
    requires p > 0 && AllStorable(fs)
  {
    LastPage(HeaderPages(base, p, fs), NamesOf(fs), Cut(name))
  }

  /** The search finds the file of that name which was appended last, if it does not begin in
      the first page, and otherwise nothing: exactly if no page behind that one, in what is not
      a header, looks like a header for the name. */
  lemma SearchFindsLastFile(flash: seq<Byte>, base: seq<Byte>, p: nat, fs: seq<File>, name: seq<Byte>, k: nat,
                            hit: Test)
    requires p > 0 && AllStorable(fs) && IsName(name) && Built(base, p, fs) <= flash && |flash| == PageStart(k, p)
    requires hit == TestFor(flash, p, name)
    ensures
      var g := SoughtPage(base, p, fs, name);
      LastHit(hit, k) == (if g == 0 then None else Some(g)) <==> NothingElse(hit, k, HeaderPages(base, p, fs), g)
  {
    var pages, names := HeaderPages(base, p, fs), NamesOf(fs);
    FilesAreListed(flash, base, p, fs, name, k, hit, pages, names);
    LastHitIsLastPage(hit, k, pages, names, Cut(name));
  }

  /** So a stored file, the last one of its name, is missed exactly if it was the first one
      appended to an empty image. */
  lemma FirstPageIsNotSearched(flash: seq<Byte>, base: seq<Byte>, p: nat, fs: seq<File>, name: seq<Byte>, k: nat,
                               hit: Test, i: nat)
    requires p > 0 && AllStorable(fs) && IsName(name) && Built(base, p, fs) <= flash && |flash| == PageStart(k, p)
    requires hit == TestFor(flash, p, name) && LastOf(NamesOf(fs), Cut(name)) == Some(i)
    requires NothingElse(hit, k, HeaderPages(base, p, fs), HeaderPage(base, p, fs, i))
    ensures LastHit(hit, k) == None <==> |base| == 0 && i == 0
    ensures LastHit(hit, k) != None ==> LastHit(hit, k) == Some(HeaderPage(base, p, fs, i))
  {
    SearchFindsLastFile(flash, base, p, fs, name, k, hit);
    InFirstPage(base, p, fs, i);
  }

  // --- the writer ---------------------------------------------------------------------------

  lemma AlignedHere(n: nat, m: nat, p: nat)
    requires p > 0 && n <= m < n + p && m % p == 0
    ensures m == PageStart(Pages(n, p), p)
  {
    PagesHold(n, p);
    var q := m / p;
    assert m == PageStart(q, p);
    if q < Pages(n, p) {
      PagesInOrder(q, Pages(n, p), p);
    } else if q > Pages(n, p) {
      PagesInOrder(Pages(n, p), q, p);
    }
  }

  lemma StartIsAligned(k: nat, p: nat)
    requires p > 0
    ensures PageStart(k, p) % p == 0
  {
    var n := PageStart(k, p);
    var q := n / p;
    assert n == PageStart(q, p) + n % p;
    if q < k {
      PagesInOrder(q, k, p);
    } else if q > k {
      PagesInOrder(k, q, p);
    }
  }

  /** vfs-concat: the image is emitted and filled up even when the name is then found too long. */
  method Concat(img: seq<Byte>, p: nat, name: seq<Byte>, content: seq<Byte>) returns (out: seq<Byte>, ok: bool)
    requires p > 0 && IsName(name) && |content| < 0x1_0000
    ensures ok <==> |name| <= FNLEN
    ensures out == if ok then Appended(img, p, File(name, content)) else Aligned(img, p)
  {
    out := img;
    var length := |img|;
    ghost var end := |Aligned(img, p)|;
    PagesHold(|img|, p);
    StartIsAligned(Pages(|img|, p), p);
    while length % p != 0
      invariant |img| <= length == |out| <= end && out == img + Filler(ERASED, length - |img|)
      decreases end - length
    {
      out := out + [ERASED];
      length := length + 1;
    }
    AlignedHere(|img|, length, p);
    assert out == Aligned(img, p);
    if |name| > FNLEN {
      return out, false;
    }
    out := out + [MAGIC];
    var node := NameField(name) + LittleEndian(|content|, 2);
    var crc := CrcCalc(node);
    out := out + (node + [crc]);
    assert out == Aligned(img, p) + Header(File(name, content));
    out := out + content;
    ok := true;
  }

  // --- the reader ---------------------------------------------------------------------------

  class Handle {
    const offset: nat
    const len: nat
    var pos: nat

    constructor (offset: nat, len: nat)
      ensures this.offset == offset && this.len == len && pos == 0
    {
      this.offset, this.len := offset, len;
      pos := 0;
    }

    // The file lies inside the memory, and the position inside the file.
    predicate Valid(size: nat)
      reads this
    {
      pos <= len < 0x1_0000 && offset + len <= size
    }

    ghost predicate Covers(mem: seq<Byte>, content: seq<Byte>) {
      offset + len <= |mem| && mem[offset..offset + len] == content
    }

    /** vfs_inline_read */
    method Read(flash: array<Byte>, buf: array<Byte>, length: nat) returns (n: nat)
      requires Valid(flash.Length) && flash != buf
      requires length <= buf.Length
      modifies this`pos, buf
      ensures n == if length < len - old(pos) then length else len - old(pos)
      ensures Valid(flash.Length) && pos == old(pos) + n
      ensures buf[..n] == flash[offset + old(pos)..offset + pos] && buf[n..] == old(buf[n..])
    {
      n := len - pos;
      if length < n {
        n := length;
      }
      for i := 0 to n
        invariant pos == old(pos) && buf[..i] == flash[offset + pos..offset + pos + i] && buf[n..] == old(buf[n..])
      {
        buf[i] := flash[offset + pos + i];
      }
      pos := pos + n;
    }

    /** vfs_inline_fseek: positions are 16 bits wide, and none behind the end is taken. */
    method Seek(size: nat, distance: nat, whence: nat) returns (ok: bool)
      requires Valid(size)
      modifies this`pos
      ensures Valid(size)
      ensures
        var start := if whence == 0 then 0 else if whence == 1 then old(pos) else len;
        var target := (start + distance) % 0x1_0000;
        && (ok <==> whence <= 2 && target <= len)
        && pos == if ok then target else old(pos)
    {
      if whence > 2 {
        return false;
      }
      var start := if whence == 0 then 0 else if whence == 1 then pos else len;
      var target := (start + distance) % 0x1_0000;
      if target > len {
        return false;
      }
      pos := target;
      ok := true;
    }
  }

  lemma NodeInFlash(flash: seq<Byte>, o: nat, node: seq<Byte>)
    requires o + HEADER <= |flash| && node == flash[o + 1..o + 10]
    ensures node[..8] == flash[o + 1..o + 9] && node[..6] == flash[o + 1..o + 7] && node[8] == flash[o + 9]
  {
  }

  // Whether the page at offset begins with a header for the name.
  method Check(flash: array<Byte>, offset: nat, name: seq<Byte>) returns (found: bool)
    requires offset + HEADER <= flash.Length
    ensures found <==> Matches(flash[..], offset, name)
  {
    if flash[offset] != MAGIC {
      return false;
    }
    var node := new Byte[9](_ => 0);
    for i := 0 to 9
      invariant node[..i] == flash[offset + 1..offset + 1 + i]
    {
      node[i] := flash[offset + 1 + i];
    }
    var crc := CrcChecksum(node, 8);
    NodeInFlash(flash[..], offset, node[..]);
    if node[8] != crc {
      return false;
    }
    found := Agree(node[..6], name, FNLEN);
  }

  // One page of the search.
  method OpenAt(flash: array<Byte>, offset: nat, p: nat, name: seq<Byte>, ghost j: nat, ghost hit: Test)
    returns (h: Option<Handle>)
    requires offset + HEADER <= flash.Length && offset == PageStart(j, p) && hit == TestFor(flash[..], p, name)
    ensures h.Some? <==> hit(j)
    ensures h.Some? ==> fresh(h.value) && h.value.pos == 0 && AtPage(flash[..], offset, h.value)
  {
    var found := Check(flash, offset, name);
    if !found {
      return None;
    }
    var handle := new Handle(offset + HEADER, Value16(flash[offset + 7], flash[offset + 8]));
    h := Some(handle);
  }

  // The same for an arbitrary test, which is what the search relies on.
  method OpenLast(flash: array<Byte>, p: nat, name: seq<Byte>, ghost k: nat, ghost hit: Test, ghost mem: seq<Byte>)
    returns (h: Option<Handle>)
    requires HEADER <= p && k > 0 && flash.Length == PageStart(k, p) && mem == flash[..] && hit == TestFor(mem, p, name)
    ensures h.Some? <==> LastHit(hit, k).Some?
    ensures h.Some? ==> fresh(h.value) && h.value.pos == 0 && AtPage(mem, PageStart(LastHit(hit, k).value, p), h.value)
  {
    var offset := flash.Length - p;
    ghost var j := k - 1;
    PageBelow(k, p);
    while offset != 0
      invariant 0 <= j < k && offset == PageStart(j, p) && offset + p <= flash.Length
      invariant LastHit(hit, k) == LastHit(hit, j + 1)
    {
      PositivePage(j, p);
      LastHitStep(hit, j);
      h := OpenAt(flash, offset, p, name, j, hit);
      if h.Some? {
        return;
      }
      PageBelow(j, p);
      offset := offset - p;
      j := j - 1;
    }
    PositivePage(j, p);
    h := None;
  }

  lemma LastHitStep(hit: Test, j: nat)
    ensures LastHit(hit, j + 1) == if j == 0 then None else if hit(j) then Some(j) else LastHit(hit, j)
  {
  }

  lemma PositivePage(j: nat, p: nat)
    requires p > 0
    ensures PageStart(j, p) == 0 <==> j == 0
  {
    SamePage(0, j, p);
  }

  /** vfs_inline_open searches from the last page down; page 0 is not looked at. */
  method Open(flash: array<Byte>, p: nat, name: seq<Byte>, ghost k: nat, ghost hit: Test) returns (h: Option<Handle>)
    requires HEADER <= p && k > 0 && flash.Length == PageStart(k, p) <= 0x1_0000
    requires hit == TestFor(flash[..], p, name)
    ensures h.Some? <==> LastHit(hit, k).Some?
    ensures h.Some? ==> fresh(h.value) && h.value.pos == 0
    ensures h.Some? ==> AtPage(flash[..], PageStart(LastHit(hit, k).value, p), h.value)
  {
    h := OpenLast(flash, p, name, k, hit, flash[..]);
  }

  // The handle of a header at offset o.
  ghost predicate AtPage(flash: seq<Byte>, o: nat, h: Handle) {
    o + HEADER <= |flash| && h.offset == o + HEADER && h.len == Value16(flash[o + 7], flash[o + 8])
  }

  lemma PageBelow(k: nat, p: nat)
    ensures k > 0 ==> PageStart(k - 1, p) == PageStart(k, p) - p
    ensures k == 0 ==> PageStart(k, p) == 0
  {
  }

  /** The handle opened for a file covers exactly its content. */
  lemma HandleCoversContent(flash: seq<Byte>, base: seq<Byte>, p: nat, fs: seq<File>, i: nat, h: Handle)
    requires p > 0 && AllStorable(fs) && i < |fs| && Built(base, p, fs) <= flash
    requires AtPage(flash, PageStart(HeaderPage(base, p, fs, i), p), h)
    ensures h.Covers(flash, fs[i].content)
  {
    FilesStand(base, p, fs, i, flash);
    HandleAt(flash, PageStart(HeaderPage(base, p, fs, i), p), fs[i], h);
  }

  /** A built image read back: a handle for the last file of the name, covering exactly its
      content, unless that file begins in the first page or there is none. */
  method OpenFile(flash: array<Byte>, p: nat, name: seq<Byte>, ghost base: seq<Byte>, ghost fs: seq<File>, ghost k: nat)
    returns (h: Option<Handle>)
    requires HEADER <= p && k > 0 && flash.Length == PageStart(k, p) <= 0x1_0000
    requires AllStorable(fs) && IsName(name) && Built(base, p, fs) <= flash[..]
    requires NothingElse(TestFor(flash[..], p, name), k, HeaderPages(base, p, fs), SoughtPage(base, p, fs, name))
    ensures
      var i := LastOf(NamesOf(fs), if |name| <= 6 then name else name[..6]);
      && (h.None? <==> i.None? || (|base| == 0 && i.value == 0))
      && (h.Some? ==> fresh(h.value) && h.value.pos == 0 && h.value.Covers(flash[..], fs[i.value].content))
  {
    ghost var hit := TestFor(flash[..], p, name);
    h := Open(flash, p, name, k, hit);
    HandleIsForFile(flash[..], base, p, fs, name, k, hit, h);
  }

  lemma HandleIsForFile(flash: seq<Byte>, base: seq<Byte>, p: nat, fs: seq<File>, name: seq<Byte>, k: nat, hit: Test,
                        h: Option<Handle>)
    requires p > 0 && AllStorable(fs) && IsName(name) && Built(base, p, fs) <= flash && |flash| == PageStart(k, p)
    requires hit == TestFor(flash, p, name)
    requires NothingElse(hit, k, HeaderPages(base, p, fs), SoughtPage(base, p, fs, name))
    requires h.Some? <==> LastHit(hit, k).Some?
    requires h.Some? ==> AtPage(flash, PageStart(LastHit(hit, k).value, p), h.value)
    ensures
      var i := LastOf(NamesOf(fs), if |name| <= 6 then name else name[..6]);
      && (h.None? <==> i.None? || (|base| == 0 && i.value == 0))
      && (h.Some? ==> h.value.Covers(flash, fs[i.value].content))
  {
    var i := LastOf(NamesOf(fs), if |name| <= 6 then name else name[..6]);
    if i.None? {
      SearchFindsLastFile(flash, base, p, fs, name, k, hit);
    } else {
      FirstPageIsNotSearched(flash, base, p, fs, name, k, hit, i.value);
      HandleIfAny(flash, base, p, fs, i.value, h);
    }
  }

  lemma HandleIfAny(flash: seq<Byte>, base: seq<Byte>, p: nat, fs: seq<File>, i: nat, h: Option<Handle>)
    requires p > 0 && AllStorable(fs) && i < |fs| && Built(base, p, fs) <= flash
    requires h.Some? ==> AtPage(flash, PageStart(HeaderPage(base, p, fs, i), p), h.value)
    ensures h.Some? ==> h.value.Covers(flash, fs[i].content)
  {
    if h.Some? {
      HandleCoversContent(flash, base, p, fs, i, h.value);
    }
  }

  lemma HandleAt(flash: seq<Byte>, o: nat, f: File, h: Handle)
    requires Storable(f) && Stands(flash, o, f) && AtPage(flash, o, h)
    ensures h.Covers(flash, f.content)
  {
    HandleLength(flash, o, f, h);
    ContentCovered(flash, o, f, h);
  }

  lemma HandleLength(flash: seq<Byte>, o: nat, f: File, h: Handle)
    requires Storable(f) && Stands(flash, o, f) && AtPage(flash, o, h)
    ensures h.len == |f.content|
  {
    HeaderLength(flash, o, f);
  }

  lemma ContentCovered(flash: seq<Byte>, o: nat, f: File, h: Handle)
    requires Storable(f) && Stands(flash, o, f) && h.offset == o + HEADER && h.len == |f.content|
    ensures h.Covers(flash, f.content)
  {
  }

  // What reads of these lengths return, one after the other.
  function Chunks(content: seq<Byte>, pos: nat, lengths: seq<nat>): seq<Byte>
    requires pos <= |content|
    decreases |lengths|
  {
    if |lengths| == 0 then []
    else
      var n := if lengths[0] < |content| - pos then lengths[0] else |content| - pos;
      content[pos..pos + n] + Chunks(content, pos + n, lengths[1..])
  }

  function Sum(lengths: seq<nat>): nat {
    if |lengths| == 0 then 0 else lengths[0] + Sum(lengths[1..])
  }

  /** Any series of reads returns the bytes in order, up to the end of the file. */
  lemma {:induction false} ReadsReturnContent(content: seq<Byte>, pos: nat, lengths: seq<nat>)
    requires pos <= |content|
    ensures
      var n := if Sum(lengths) < |content| - pos then Sum(lengths) else |content| - pos;
      Chunks(content, pos, lengths) == content[pos..pos + n]
    decreases |lengths|
  {
    if |lengths| > 0 {
      var n := if lengths[0] < |content| - pos then lengths[0] else |content| - pos;
      ReadsReturnContent(content, pos + n, lengths[1..]);
    }
  }

  lemma ChunksOneMore(content: seq<Byte>, pos: nat, lengths: seq<nat>, i: nat, n: nat)
    requires pos <= |content| && i < |lengths|
    requires n == if lengths[i] < |content| - pos then lengths[i] else |content| - pos
    ensures Chunks(content, pos, lengths[i..]) == content[pos..pos + n] + Chunks(content, pos + n, lengths[i + 1..])
  {
    assert lengths[i..][0] == lengths[i] && lengths[i..][1..] == lengths[i + 1..];
  }

  lemma SeriesOneMore(content: seq<Byte>, pos: nat, lengths: seq<nat>, i: nat, out: seq<Byte>, next: seq<Byte>,
                      all: seq<Byte>)
    requires pos <= |content| && i < |lengths| && out + Chunks(content, pos, lengths[i..]) == all
    requires |next| == (if lengths[i] < |content| - pos then lengths[i] else |content| - pos)
    requires next == content[pos..pos + |next|]
    ensures out + next + Chunks(content, pos + |next|, lengths[i + 1..]) == all
  {
    ChunksOneMore(content, pos, lengths, i, |next|);
    Associate(out, next, Chunks(content, pos + |next|, lengths[i + 1..]));
  }

  lemma Associate<T>(a: seq<T>, b: seq<T>, c: seq<T>)
    ensures a + b + c == a + (b + c)
  {
  }

  // One read, of the content the handle covers.
  method ReadNext(h: Handle, flash: array<Byte>, buf: array<Byte>, length: nat, ghost content: seq<Byte>)
    returns (out: seq<Byte>)
    requires h.Valid(flash.Length) && flash != buf && length <= buf.Length
    requires content == flash[h.offset..h.offset + h.len]
    modifies h`pos, buf
    ensures h.Valid(flash.Length) && h.pos == old(h.pos) + |out|
    ensures |out| == if length < |content| - old(h.pos) then length else |content| - old(h.pos)
    ensures out == content[old(h.pos)..h.pos]
  {
    ghost var pos := h.pos;
    var n := h.Read(flash, buf, length);
    SliceOfSlice(flash[..], h.offset, h.len, pos, h.pos);
    out := buf[..n];
  }

  // Reads of these lengths, one after the other.
  method ReadSeries(h: Handle, flash: array<Byte>, buf: array<Byte>, lengths: seq<nat>, ghost content: seq<Byte>)
    returns (out: seq<Byte>)
    requires h.Valid(flash.Length) && flash != buf
    requires content == flash[h.offset..h.offset + h.len]
    requires forall i :: 0 <= i < |lengths| ==> lengths[i] <= buf.Length
    modifies h`pos, buf
    ensures h.Valid(flash.Length) && h.pos == old(h.pos) + |out|
    ensures out == Chunks(content, old(h.pos), lengths)
  {
    ghost var start, all := h.pos, Chunks(content, h.pos, lengths);
    out := [];
    assert lengths[0..] == lengths && lengths[|lengths|..] == [] && out + all == all;
    for i := 0 to |lengths|
      invariant h.Valid(flash.Length) && h.pos == start + |out|
      invariant out + Chunks(content, h.pos, lengths[i..]) == all
    {
      ghost var pos := h.pos;
      var next := ReadNext(h, flash, buf, lengths[i], content);
      SeriesOneMore(content, pos, lengths, i, out, next, all);
      out := out + next;
    }
    assert out + [] == out;
  }
}
