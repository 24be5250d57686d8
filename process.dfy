/**
 * The credential checks of process.py: the structural strength classifier
 * (`strength_check`), the dictionary filter (`check_predictable`) and the
 * match of NTLM digests against precomputed hash tables
 * (`check_rainbow_table`).
 */
module Process {
  import opened Wrappers
  import opened Text

  // ===========================================================================
  // strength_check
  // ===========================================================================

  datatype Strength = Weak | Medium | Strong

  /** The text `strength_check` returns for each verdict. */
  function Label(s: Strength): (r: string)
    ensures r in {"Weak", "Medium", "Strong"}
  {
    match s
    case Weak => "Weak"
    case Medium => "Medium"
    case Strong => "Strong"
  }

  /** Python's `any(p(c) for c in s)`. */
  function Any(s: string, p: char -> bool): (r: bool)
    ensures r <==> exists k :: 0 <= k < |s| && p(s[k])
  {
    if s == [] then false
    else if p(s[0]) then true
    else
      assert forall k :: 1 <= k < |s| ==> s[k] == s[1..][k - 1];
      Any(s[1..], p)
  }

  ghost predicate HasUpper(s: string) { exists k :: 0 <= k < |s| && IsUpper(s[k]) }
  ghost predicate HasLower(s: string) { exists k :: 0 <= k < |s| && IsLower(s[k]) }
  ghost predicate HasDigit(s: string) { exists k :: 0 <= k < |s| && IsDigit(s[k]) }
  ghost predicate HasSpecial(s: string) { exists k :: 0 <= k < |s| && !IsAlnum(s[k]) }

  /**
   * `strength_check`: shorter than eight characters is Weak; otherwise all
   * four character classes make it Strong, a letter together with a digit
   * or a special character makes it Medium, and anything else is Weak.
   */
  function StrengthCheck(password: string): (r: Strength)
    ensures |password| < 8 ==> r == Weak
    ensures r == Strong <==>
              |password| >= 8 && HasUpper(password) && HasLower(password)
              && HasDigit(password) && HasSpecial(password)
    ensures r == Medium <==>
              |password| >= 8 && r != Strong
              && (HasUpper(password) || HasLower(password))
              && (HasDigit(password) || HasSpecial(password))
    ensures r == Weak <==>
              |password| < 8 || !((HasUpper(password) || HasLower(password))
                                  && (HasDigit(password) || HasSpecial(password)))
  {
    if |password| < 8 then Weak
    else
      var hasUpper := Any(password, IsUpper);
      var hasLower := Any(password, IsLower);
      var hasDigit := Any(password, IsDigit);
      var hasSpecial := Any(password, c => !IsAlnum(c));
      if hasUpper && hasLower && hasDigit && hasSpecial then Strong
      else if (hasUpper || hasLower) && (hasDigit || hasSpecial) then Medium
      else Weak
  }

  /**
   * The string `strength_check` returns: "Strong" and "Medium" exactly for
   * those verdicts, and "Weak" for every password shorter than eight.
   */
  function StrengthLabel(password: string): (r: string)
    ensures r in {"Weak", "Medium", "Strong"}
    ensures |password| < 8 ==> r == "Weak"
    ensures r == "Strong" <==>
              |password| >= 8 && HasUpper(password) && HasLower(password)
              && HasDigit(password) && HasSpecial(password)
    ensures r == "Medium" <==> StrengthCheck(password) == Medium
    ensures r == "Weak" <==> StrengthCheck(password) == Weak
  {
    Label(StrengthCheck(password))
  }

  function Rank(s: Strength): (n: nat)
  {
    match s
    case Weak => 0
    case Medium => 1
    case Strong => 2
  }

  /**
   * Appending characters never lowers the verdict: length and every
   * character class can only be gained.
   */
  lemma StrengthMonotone(password: string, more: string)
    ensures Rank(StrengthCheck(password)) <= Rank(StrengthCheck(password + more))
  {
    var s := password + more;
    assert forall k :: 0 <= k < |password| ==> s[k] == password[k];
    if HasUpper(password) { var k :| 0 <= k < |password| && IsUpper(password[k]); assert IsUpper(s[k]); }
    if HasLower(password) { var k :| 0 <= k < |password| && IsLower(password[k]); assert IsLower(s[k]); }
    if HasDigit(password) { var k :| 0 <= k < |password| && IsDigit(password[k]); assert IsDigit(s[k]); }
    if HasSpecial(password) { var k :| 0 <= k < |password| && !IsAlnum(password[k]); assert !IsAlnum(s[k]); }
  }

  // ===========================================================================
  // check_predictable
  // ===========================================================================

  /** The passwords whose lower-cased form is a dictionary word, in their order. */
  function Predictable(passwords: seq<string>, words: set<string>): (r: seq<string>)
    ensures forall x :: x in r <==> x in passwords && Lower(x) in words
    ensures |r| <= |passwords|
  {
    if passwords == [] then []
    else
      var rest := Predictable(passwords[1..], words);
      assert forall x :: x in passwords <==> x == passwords[0] || x in passwords[1..];
      if Lower(passwords[0]) in words then [passwords[0]] + rest else rest
  }

  /** The filter distributes over concatenation, so it keeps the input order. */
  lemma {:induction false} PredictableAppend(a: seq<string>, b: seq<string>, words: set<string>)
    ensures Predictable(a + b, words) == Predictable(a, words) + Predictable(b, words)
  {
    if a != [] {
      assert (a + b)[1..] == a[1..] + b;
      PredictableAppend(a[1..], b, words);
    } else {
      assert a + b == b;
    }
  }

  /** Filtering one more password appends it exactly when its lower-case form is a dictionary word. */
  lemma PredictableSnoc(a: seq<string>, x: string, words: set<string>)
    ensures Predictable(a + [x], words) == Predictable(a, words) + (if Lower(x) in words then [x] else [])
  {
    PredictableAppend(a, [x], words);
    assert [x][1..] == [];
  }

  /** Filtering a second time changes nothing. */
  lemma {:induction false} PredictableIdempotent(passwords: seq<string>, words: set<string>)
    ensures Predictable(Predictable(passwords, words), words) == Predictable(passwords, words)
  {
    if passwords != [] {
      var rest := Predictable(passwords[1..], words);
      PredictableIdempotent(passwords[1..], words);
      if Lower(passwords[0]) in words {
        assert ([passwords[0]] + rest)[1..] == rest;
      }
    }
  }

  /** `check_predictable`: the loop that appends each password found in the dictionary. */
  method CheckPredictable(passwords: seq<string>, words: set<string>) returns (predictable: seq<string>)
    ensures predictable == Predictable(passwords, words)
    ensures forall x :: x in predictable <==> x in passwords && Lower(x) in words
  {
    predictable := [];
    for i := 0 to |passwords|
      invariant predictable == Predictable(passwords[..i], words)
    {
      var pwd := passwords[i];
      PredictableSnoc(passwords[..i], pwd, words);
      assert passwords[..i + 1] == passwords[..i] + [pwd];
      if Lower(pwd) in words {
        predictable := predictable + [pwd];
      }
    }
    assert passwords[..|passwords|] == passwords;
  }

  // ===========================================================================
  // check_rainbow_table
  // ===========================================================================

  /** An upper-case hexadecimal digit, as a byte: 0-9 or A-F. */
  predicate IsUpperHex(b: byte) {
    48 <= b <= 57 || 65 <= b <= 70
  }

  /** The form of `hexdigest().upper().encode('utf-8')` for MD4: 32 upper-case hex digits. */
  predicate IsHexDigest(h: Bytes) {
    |h| == 32 && forall k :: 0 <= k < |h| ==> IsUpperHex(h[k])
  }

  /**
   * The NTLM digest of a password: MD4 over its UTF-16LE encoding, or None
   * when the encoding raises. MD4 itself is not modelled; the scan only
   * relies on this being a function of the password.
   */
  type Digest = string -> Option<Bytes>

  /**
   * One entry of the rainbow directory's listing: its file name, whether
   * `os.path.isfile` holds of it, and the lines a binary read of it yields
   * (None when opening or reading it raises).
   */
  datatype TableFile = TableFile(name: string, isFile: bool, lines: Option<seq<Bytes>>)

  /** The scan state: the passwords cracked so far, and whether an exception ended the scan. */
  datatype Scan = Scan(cracked: map<string, string>, aborted: bool)

  /** `set(line.strip() for line in rainbow_file)`. */
  function HashSet(lines: seq<Bytes>): (hashes: set<Bytes>)
    ensures forall l :: l in lines ==> ByteStrip(l) in hashes
  {
    set l | l in lines :: ByteStrip(l)
  }

  /** The set holds exactly the stripped lines of the table: nothing else is a member. */
  lemma HashSetMembers(lines: seq<Bytes>)
    ensures forall h :: h in HashSet(lines) <==> exists l :: l in lines && ByteStrip(l) == h
  {
  }

  /** A file cracks a password exactly when one of its lines, stripped, is the password's digest. */
  lemma CracksMeans(f: TableFile, p: string, ntlm: Digest)
    ensures Cracks(f, p, ntlm) <==>
              f.isFile && f.lines.Some? && ntlm(p).Some?
              && exists l :: l in f.lines.value && ByteStrip(l) == ntlm(p).value
  {
    if f.lines.Some? {
      HashSetMembers(f.lines.value);
    }
  }

  /** The set holds only stripped values: stripping a member again changes nothing. */
  lemma HashSetStripped(lines: seq<Bytes>)
    ensures forall h :: h in HashSet(lines) ==> ByteStrip(h) == h
  {
    forall h | h in HashSet(lines) ensures ByteStrip(h) == h {
      var l :| l in lines && ByteStrip(l) == h;
      ByteStripIdempotent(l);
    }
  }

  /**
   * A table line holding a digest followed by any line ending made of
   * whitespace ("\n", "\r\n", trailing blanks) strips to that digest.
   */
  lemma DigestLineStrips(h: Bytes, eol: Bytes)
    requires IsHexDigest(h)
    requires forall k :: 0 <= k < |eol| ==> IsByteSpace(eol[k])
    ensures ByteStrip(h + eol) == h
  {
    var s := h + eol;
    assert !IsByteSpace(s[0]) && !IsByteSpace(s[|h| - 1]);
    assert forall k :: |h| <= k < |s| ==> s[k] == eol[k - |h|];
    ByteStripIsSlice(s, 0, |h|);
    assert s[..|h|] == h;
  }

  /** `f` is a regular file that was read and holds the digest of `p` among its stripped lines. */
  predicate Cracks(f: TableFile, p: string, ntlm: Digest)
  {
    f.isFile && f.lines.Some? && ntlm(p).Some? && ntlm(p).value in HashSet(f.lines.value)
  }

  /** The regular files of a listing, in listing order (the `isfile` filter). */
  function RegularFiles(entries: seq<TableFile>): (files: seq<TableFile>)
    ensures forall f :: f in files <==> f in entries && f.isFile
    ensures |files| <= |entries|
  {
    if entries == [] then []
    else
      var rest := RegularFiles(entries[1..]);
      assert forall f :: f in entries <==> f == entries[0] || f in entries[1..];
      if entries[0].isFile then [entries[0]] + rest else rest
  }

  /**
   * The inner loop over the passwords for one table: each password whose
   * digest is in `hashes` is (re)assigned to `table`; the first password
   * that cannot be encoded raises and ends the scan.
   */
  function ScanPasswords(m: map<string, string>, table: string, hashes: set<Bytes>,
                         passwords: seq<string>, ntlm: Digest): (r: Scan)
    ensures r.aborted <==> exists p :: p in passwords && ntlm(p).None?
    ensures m.Keys <= r.cracked.Keys
    ensures forall p :: p in r.cracked ==>
              (p in m && r.cracked[p] == m[p])
              || (p in passwords && ntlm(p).Some? && ntlm(p).value in hashes && r.cracked[p] == table)
    decreases |passwords|
  {
    if passwords == [] then Scan(m, false)
    else
      assert forall p :: p in passwords <==> p == passwords[0] || p in passwords[1..];
      match ntlm(passwords[0])
      case None => Scan(m, true)
      case Some(h) =>
        ScanPasswords(if h in hashes then m[passwords[0] := table] else m,
                      table, hashes, passwords[1..], ntlm)
  }

  /**
   * No exception is raised: every regular file of the listing can be read
   * and, if there is one, every password can be encoded.
   */
  predicate ScanCompletes(entries: seq<TableFile>, passwords: seq<string>, ntlm: Digest)
  {
    (forall f :: f in entries && f.isFile ==> f.lines.Some?)
    && ((exists f :: f in entries && f.isFile) ==> forall p :: p in passwords ==> ntlm(p).Some?)
  }

  /**
   * The outer loop over the listing in order: entries that are not regular
   * files are passed over, and a file that cannot be read raises and ends
   * the scan with what was found so far. The scan accumulates: it only adds
   * or overwrites entries, each attributing an input password to a regular
   * file that cracks it, and it raises exactly when a regular file cannot be
   * read or a password cannot be encoded.
   */
  function ScanTables(m: map<string, string>, entries: seq<TableFile>,
                      passwords: seq<string>, ntlm: Digest): (r: Scan)
    ensures r.aborted <==> !ScanCompletes(entries, passwords, ntlm)
    ensures m.Keys <= r.cracked.Keys
    ensures forall p :: p in r.cracked ==>
              (p in m && r.cracked[p] == m[p])
              || (p in passwords && exists f :: f in entries && Cracks(f, p, ntlm) && r.cracked[p] == f.name)
    decreases |entries|
  {
    if entries == [] then Scan(m, false)
    else
      var f := entries[0];
      assert forall g :: g in entries <==> g == f || g in entries[1..];
      if !f.isFile then ScanTables(m, entries[1..], passwords, ntlm)
      else
        match f.lines
        case None => Scan(m, true)
        case Some(lines) =>
          var s := ScanPasswords(m, f.name, HashSet(lines), passwords, ntlm);
          if s.aborted then s else ScanTables(s.cracked, entries[1..], passwords, ntlm)
  }

  /**
   * The whole of `check_rainbow_table`: a listing of None means
   * `os.listdir` raised, and the empty mapping is returned. On every path,
   * including the error paths, each cracked password is one of the inputs,
   * attributed to a regular file of the listing whose stripped lines hold
   * its digest.
   */
  function Rainbow(passwords: seq<string>, listing: Option<seq<TableFile>>, ntlm: Digest): (r: Scan)
    ensures listing.None? ==> r == Scan(map[], true)
    ensures r.aborted <==> listing.None? || !ScanCompletes(listing.value, passwords, ntlm)
    ensures forall p :: p in r.cracked ==>
              p in passwords && listing.Some?
              && exists f :: f in listing.value && Cracks(f, p, ntlm) && r.cracked[p] == f.name
  {
    match listing
    case None => Scan(map[], true)
    case Some(entries) => ScanTables(map[], entries, passwords, ntlm)
  }

  /** Filtering the listing down to its regular files first, as the source does, changes nothing. */
  lemma {:induction false} ScanRegularFiles(m: map<string, string>, entries: seq<TableFile>,
                                            passwords: seq<string>, ntlm: Digest)
    ensures ScanTables(m, RegularFiles(entries), passwords, ntlm) == ScanTables(m, entries, passwords, ntlm)
    decreases |entries|
  {
    if entries != [] {
      var rest := RegularFiles(entries[1..]);
      if entries[0].isFile {
        assert ([entries[0]] + rest)[1..] == rest;
        if entries[0].lines.Some? {
          var s := ScanPasswords(m, entries[0].name, HashSet(entries[0].lines.value), passwords, ntlm);
          ScanRegularFiles(s.cracked, entries[1..], passwords, ntlm);
        }
      } else {
        ScanRegularFiles(m, entries[1..], passwords, ntlm);
      }
    }
  }

  /**
   * `check_rainbow_table`: nested loops over the regular table files and
   * the passwords that update one dictionary; an exception ends both loops
   * and the dictionary built so far is returned.
   */
  method CheckRainbowTable(passwords: seq<string>, listing: Option<seq<TableFile>>, ntlm: Digest)
    returns (cracked: map<string, string>)
    ensures cracked == Rainbow(passwords, listing, ntlm).cracked
    ensures listing.None? ==> cracked == map[]
  {
    cracked := map[];
    if listing.None? {
      return;
    }
    var files := RegularFiles(listing.value);
    ScanRegularFiles(map[], listing.value, passwords, ntlm);
    var i := 0;
    while i < |files|
      invariant 0 <= i <= |files|
      invariant ScanTables(cracked, files[i..], passwords, ntlm) == Rainbow(passwords, listing, ntlm)
    {
      var file := files[i];
      assert file in files && files[i..][1..] == files[i + 1..];
      if file.lines.None? {
        return;
      }
      var hashes := HashSet(file.lines.value);
      ghost var before := cracked;
      var j := 0;
      while j < |passwords|
        invariant 0 <= j <= |passwords|
        invariant ScanPasswords(cracked, file.name, hashes, passwords[j..], ntlm)
                  == ScanPasswords(before, file.name, hashes, passwords, ntlm)
      {
        assert passwords[j..][1..] == passwords[j + 1..];
        var digest := ntlm(passwords[j]);
        if digest.None? {
          return;
        }
        if digest.value in hashes {
          cracked := cracked[passwords[j] := file.name];
        }
        j := j + 1;
      }
      i := i + 1;
    }
  }

  // ---------------------------------------------------------------------------
  // A run without exceptions: completeness and "the last table wins"
  // ---------------------------------------------------------------------------

  /** The name of the last regular file in `entries` that cracks `p`, if any does. */
  function LastCracker(entries: seq<TableFile>, p: string, ntlm: Digest): (found: Option<string>)
    decreases |entries|
  {
    if entries == [] then None
    else if Cracks(entries[|entries| - 1], p, ntlm) then Some(entries[|entries| - 1].name)
    else LastCracker(entries[..|entries| - 1], p, ntlm)
  }

  /** `LastCracker` finds nothing exactly when no regular file of `entries` cracks `p`. */
  lemma {:induction false} LastCrackerNone(entries: seq<TableFile>, p: string, ntlm: Digest)
    ensures LastCracker(entries, p, ntlm).None? <==> forall k :: 0 <= k < |entries| ==> !Cracks(entries[k], p, ntlm)
    decreases |entries|
  {
    if entries != [] {
      var init := entries[..|entries| - 1];
      LastCrackerNone(init, p, ntlm);
      assert forall k :: 0 <= k < |init| ==> entries[k] == init[k];
    }
  }

  /** When `LastCracker` finds a name, it names a file that cracks `p` and after which none does. */
  lemma {:induction false} LastCrackerIsLast(entries: seq<TableFile>, p: string, ntlm: Digest)
    requires LastCracker(entries, p, ntlm).Some?
    ensures exists j :: 0 <= j < |entries| && Cracks(entries[j], p, ntlm)
                        && LastCracker(entries, p, ntlm).value == entries[j].name
                        && forall k :: j < k < |entries| ==> !Cracks(entries[k], p, ntlm)
    decreases |entries|
  {
    var n := |entries|;
    if !Cracks(entries[n - 1], p, ntlm) {
      var init := entries[..n - 1];
      LastCrackerIsLast(init, p, ntlm);
      var j :| 0 <= j < |init| && Cracks(init[j], p, ntlm) && LastCracker(init, p, ntlm).value == init[j].name
               && forall k :: j < k < |init| ==> !Cracks(init[k], p, ntlm);
      assert forall k :: 0 <= k < |init| ==> entries[k] == init[k];
      assert forall k :: j < k < n ==> !Cracks(entries[k], p, ntlm);
    }
  }

  /** The reference result: each password some file cracks, attributed to the last such file. */
  ghost function Expected(entries: seq<TableFile>, passwords: seq<string>, ntlm: Digest): (cracked: map<string, string>)
  {
    map p | p in passwords && LastCracker(entries, p, ntlm).Some? :: LastCracker(entries, p, ntlm).value
  }

  /** What one table contributes when no password raises. */
  ghost function Hits(table: string, hashes: set<Bytes>, passwords: seq<string>, ntlm: Digest): (hits: map<string, string>)
  {
    map p | p in passwords && ntlm(p).Some? && ntlm(p).value in hashes :: table
  }

  /** The first password's hit, if any, lands before those of the rest. */
  lemma HitsCons(m: map<string, string>, table: string, hashes: set<Bytes>, passwords: seq<string>, ntlm: Digest)
    requires passwords != [] && ntlm(passwords[0]).Some?
    ensures var p := passwords[0];
            var m' := if ntlm(p).value in hashes then m[p := table] else m;
            m' + Hits(table, hashes, passwords[1..], ntlm) == m + Hits(table, hashes, passwords, ntlm)
  {
    assert forall q :: q in passwords <==> q == passwords[0] || q in passwords[1..];
  }

  lemma {:induction false} ScanPasswordsNoError(m: map<string, string>, table: string, hashes: set<Bytes>,
                                                passwords: seq<string>, ntlm: Digest)
    requires forall p :: p in passwords ==> ntlm(p).Some?
    ensures ScanPasswords(m, table, hashes, passwords, ntlm) == Scan(m + Hits(table, hashes, passwords, ntlm), false)
    decreases |passwords|
  {
    if passwords != [] {
      var p := passwords[0];
      var m' := if ntlm(p).value in hashes then m[p := table] else m;
      ScanPasswordsNoError(m', table, hashes, passwords[1..], ntlm);
      HitsCons(m, table, hashes, passwords, ntlm);
    } else {
      assert Hits(table, hashes, passwords, ntlm) == map[];
    }
  }

  /** Scanning the listing `a + b` is scanning `a`, then, unless that raised, scanning `b`. */
  lemma {:induction false} ScanTablesAppend(m: map<string, string>, a: seq<TableFile>, b: seq<TableFile>,
                                            passwords: seq<string>, ntlm: Digest)
    ensures ScanTables(m, a + b, passwords, ntlm)
            == var s := ScanTables(m, a, passwords, ntlm);
               if s.aborted then s else ScanTables(s.cracked, b, passwords, ntlm)
    decreases |a|
  {
    if a == [] {
      assert a + b == b;
    } else {
      assert (a + b)[0] == a[0] && (a + b)[1..] == a[1..] + b;
      if !a[0].isFile {
        ScanTablesAppend(m, a[1..], b, passwords, ntlm);
      } else if a[0].lines.Some? {
        var s := ScanPasswords(m, a[0].name, HashSet(a[0].lines.value), passwords, ntlm);
        if !s.aborted {
          ScanTablesAppend(s.cracked, a[1..], b, passwords, ntlm);
        }
      }
    }
  }

  /** Appending an entry overlays its hits, if it is a readable regular file, on the reference result before it. */
  lemma ExpectedSnoc(init: seq<TableFile>, f: TableFile, passwords: seq<string>, ntlm: Digest)
    requires f.isFile ==> f.lines.Some?
    ensures Expected(init + [f], passwords, ntlm)
            == if f.isFile then Expected(init, passwords, ntlm) + Hits(f.name, HashSet(f.lines.value), passwords, ntlm)
               else Expected(init, passwords, ntlm)
  {
    var entries := init + [f];
    assert entries[..|entries| - 1] == init;
    forall p ensures LastCracker(entries, p, ntlm)
                     == if Cracks(f, p, ntlm) then Some(f.name) else LastCracker(init, p, ntlm) {
    }
    if f.isFile {
      var l := Expected(entries, passwords, ntlm);
      var r := Expected(init, passwords, ntlm) + Hits(f.name, HashSet(f.lines.value), passwords, ntlm);
      assert l.Keys == r.Keys;
    }
  }

  lemma {:induction false} ScanTablesNoError(entries: seq<TableFile>, passwords: seq<string>, ntlm: Digest)
    requires ScanCompletes(entries, passwords, ntlm)
    ensures ScanTables(map[], entries, passwords, ntlm) == Scan(Expected(entries, passwords, ntlm), false)
    decreases |entries|
  {
    if entries == [] {
      assert Expected(entries, passwords, ntlm) == map[];
    } else {
      var init, f := entries[..|entries| - 1], entries[|entries| - 1];
      assert entries == init + [f];
      assert forall g :: g in init ==> g in entries;
      assert f in entries;
      ScanTablesNoError(init, passwords, ntlm);
      ScanTablesAppend(map[], init, [f], passwords, ntlm);
      ExpectedSnoc(init, f, passwords, ntlm);
      var e := Expected(init, passwords, ntlm);
      if f.isFile {
        ScanPasswordsNoError(e, f.name, HashSet(f.lines.value), passwords, ntlm);
      }
    }
  }

  /**
   * Completeness of a run without exceptions: a password is cracked exactly
   * when it is an input and some regular table file holds its digest.
   */
  lemma RainbowComplete(passwords: seq<string>, entries: seq<TableFile>, ntlm: Digest)
    requires ScanCompletes(entries, passwords, ntlm)
    ensures var r := Rainbow(passwords, Some(entries), ntlm);
            && !r.aborted
            && forall p :: p in r.cracked <==>
                 p in passwords && exists f :: f in entries && Cracks(f, p, ntlm)
  {
    ScanTablesNoError(entries, passwords, ntlm);
    forall p ensures LastCracker(entries, p, ntlm).Some? <==> exists f :: f in entries && Cracks(f, p, ntlm) {
      LastCrackerNone(entries, p, ntlm);
      if f :| f in entries && Cracks(f, p, ntlm) {
        var k :| 0 <= k < |entries| && entries[k] == f;
      }
    }
  }

  /** In the reference result, a password is attributed to a file that cracks it and after which none does. */
  lemma ExpectedIsLast(entries: seq<TableFile>, passwords: seq<string>, ntlm: Digest, e: map<string, string>)
    requires e == Expected(entries, passwords, ntlm)
    ensures forall p :: p in e ==>
              exists j :: 0 <= j < |entries| && Cracks(entries[j], p, ntlm) && e[p] == entries[j].name
                          && forall k :: j < k < |entries| ==> !Cracks(entries[k], p, ntlm)
  {
    forall p | p in e {
      LastCrackerIsLast(entries, p, ntlm);
    }
  }

  /**
   * Attribution of a run without exceptions: when several regular table
   * files hold a password's digest, the password is attributed to the LAST
   * of them in listing order, a later match overwriting an earlier one.
   */
  lemma RainbowLastWins(passwords: seq<string>, entries: seq<TableFile>, ntlm: Digest)
    requires ScanCompletes(entries, passwords, ntlm)
    ensures var r := Rainbow(passwords, Some(entries), ntlm).cracked;
            forall p :: p in r ==>
              exists j :: 0 <= j < |entries| && Cracks(entries[j], p, ntlm) && r[p] == entries[j].name
                          && forall k :: j < k < |entries| ==> !Cracks(entries[k], p, ntlm)
  {
    ScanTablesNoError(entries, passwords, ntlm);
    ExpectedIsLast(entries, passwords, ntlm, Rainbow(passwords, Some(entries), ntlm).cracked);
  }

  /** Without exceptions the result depends on the passwords only as a set, not on their order or repeats. */
  lemma RainbowOrderIndependent(a: seq<string>, b: seq<string>, entries: seq<TableFile>, ntlm: Digest)
    requires Elems(a) == Elems(b)
    requires ScanCompletes(entries, a, ntlm)
    ensures Rainbow(a, Some(entries), ntlm) == Rainbow(b, Some(entries), ntlm)
  {
    assert forall p :: p in a <==> p in b by {
      forall p ensures p in a <==> p in b {
        assert p in a <==> p in Elems(a);
        assert p in b <==> p in Elems(b);
      }
    }
    ScanTablesNoError(entries, a, ntlm);
    ScanTablesNoError(entries, b, ntlm);
  }

  /**
   * Two tables "a.hash" then "b.hash" that both hold the digest of "abc123"
   * (each line ending in "\n"): the password is attributed to "b.hash".
   */
  lemma LaterTableWinsExample(ntlm: Digest, h: Bytes)
    requires ntlm("abc123") == Some(h) && IsHexDigest(h)
    ensures Rainbow(["abc123"], Some([TableFile("a.hash", true, Some([h + [10]])),
                                      TableFile("b.hash", true, Some([h + [10]]))]), ntlm).cracked
            == map["abc123" := "b.hash"]
  {
    var a := TableFile("a.hash", true, Some([h + [10]]));
    var b := TableFile("b.hash", true, Some([h + [10]]));
    DigestLineStrips(h, [10]);
    assert HashSet([h + [10]]) == {h};
    var afterA := ScanPasswords(map[], "a.hash", {h}, ["abc123"], ntlm);
    assert afterA == Scan(map["abc123" := "a.hash"], false);
    var afterB := ScanPasswords(afterA.cracked, "b.hash", {h}, ["abc123"], ntlm);
    assert afterB == Scan(map["abc123" := "b.hash"], false);
    assert [a, b][1..] == [b];
    assert ScanTables(afterA.cracked, [b], ["abc123"], ntlm) == afterB;
  }

  // ---------------------------------------------------------------------------
  // Error paths: the mapping built before the exception is returned
  // ---------------------------------------------------------------------------

  /**
   * When the regular file at index `i` cannot be read (and nothing raised
   * before it), the files before it have been fully scanned, no later file
   * is scanned, and that partial mapping is the result.
   */
  lemma RainbowStopsAtUnreadable(passwords: seq<string>, entries: seq<TableFile>, ntlm: Digest, i: nat)
    requires i < |entries| && entries[i].isFile && entries[i].lines.None?
    requires ScanCompletes(entries[..i], passwords, ntlm)
    ensures Rainbow(passwords, Some(entries), ntlm) == Scan(Expected(entries[..i], passwords, ntlm), true)
  {
    assert entries == entries[..i] + entries[i..];
    ScanTablesAppend(map[], entries[..i], entries[i..], passwords, ntlm);
    ScanTablesNoError(entries[..i], passwords, ntlm);
  }

  /** A listing with no regular file is scanned without effect and yields nothing. */
  lemma {:induction false} NoRegularFiles(m: map<string, string>, entries: seq<TableFile>,
                                          passwords: seq<string>, ntlm: Digest)
    requires forall k :: 0 <= k < |entries| ==> !entries[k].isFile
    ensures ScanTables(m, entries, passwords, ntlm) == Scan(m, false)
    ensures Expected(entries, passwords, ntlm) == map[]
    decreases |entries|
  {
    if entries != [] {
      NoRegularFiles(m, entries[1..], passwords, ntlm);
    }
    forall p ensures LastCracker(entries, p, ntlm).None? {
      LastCrackerNone(entries, p, ntlm);
    }
  }

  lemma {:induction false} ScanPasswordsAppend(m: map<string, string>, table: string, hashes: set<Bytes>,
                                               a: seq<string>, b: seq<string>, ntlm: Digest)
    ensures ScanPasswords(m, table, hashes, a + b, ntlm)
            == var s := ScanPasswords(m, table, hashes, a, ntlm);
               if s.aborted then s else ScanPasswords(s.cracked, table, hashes, b, ntlm)
    decreases |a|
  {
    if a == [] {
      assert a + b == b;
    } else {
      assert (a + b)[0] == a[0] && (a + b)[1..] == a[1..] + b;
      if ntlm(a[0]).Some? {
        var m' := if ntlm(a[0]).value in hashes then m[a[0] := table] else m;
        ScanPasswordsAppend(m', table, hashes, a[1..], b, ntlm);
      }
    }
  }

  /**
   * When the password at index `j` cannot be encoded (and the ones before it
   * can), the exception is raised while scanning the first regular file, at
   * index `i`, if that one is readable: only the passwords before the `j`-th
   * have been checked against it, and no later file is scanned.
   */
  lemma RainbowStopsAtUnencodable(passwords: seq<string>, entries: seq<TableFile>, ntlm: Digest, i: nat, j: nat)
    requires i < |entries| && entries[i].isFile && entries[i].lines.Some?
    requires forall k :: 0 <= k < i ==> !entries[k].isFile
    requires j < |passwords| && ntlm(passwords[j]).None?
    requires forall k :: 0 <= k < j ==> ntlm(passwords[k]).Some?
    ensures Rainbow(passwords, Some(entries), ntlm) == Scan(Expected(entries[..i + 1], passwords[..j], ntlm), true)
  {
    var f := entries[i];
    var hashes := HashSet(f.lines.value);
    var hits := Hits(f.name, hashes, passwords[..j], ntlm);
    assert entries == entries[..i] + entries[i..];
    ScanTablesAppend(map[], entries[..i], entries[i..], passwords, ntlm);
    NoRegularFiles(map[], entries[..i], passwords, ntlm);
    ScanPasswordsStopsAt(f.name, hashes, passwords, ntlm, j);
    ScanTablesHead(entries[i..], passwords, ntlm);
    ExpectedFirstFile(entries, passwords[..j], ntlm, i);
  }

  /** The inner loop stops at the `j`-th password, the first that cannot be encoded, with the hits of those before it. */
  lemma ScanPasswordsStopsAt(table: string, hashes: set<Bytes>, passwords: seq<string>, ntlm: Digest, j: nat)
    requires j < |passwords| && ntlm(passwords[j]).None?
    requires forall k :: 0 <= k < j ==> ntlm(passwords[k]).Some?
    ensures ScanPasswords(map[], table, hashes, passwords, ntlm) == Scan(Hits(table, hashes, passwords[..j], ntlm), true)
  {
    assert passwords == passwords[..j] + passwords[j..];
    ScanPasswordsAppend(map[], table, hashes, passwords[..j], passwords[j..], ntlm);
    ScanPasswordsNoError(map[], table, hashes, passwords[..j], ntlm);
    assert passwords[j..][0] == passwords[j];
  }

  /** A listing that starts with a readable regular file scans that file first, from the empty mapping. */
  lemma ScanTablesHead(entries: seq<TableFile>, passwords: seq<string>, ntlm: Digest)
    requires entries != [] && entries[0].isFile && entries[0].lines.Some?
    ensures var s := ScanPasswords(map[], entries[0].name, HashSet(entries[0].lines.value), passwords, ntlm);
            s.aborted ==> ScanTables(map[], entries, passwords, ntlm) == s
  {
  }

  /** When the file at `i` is the first regular one, the reference mapping up to it holds just its hits. */
  lemma ExpectedFirstFile(entries: seq<TableFile>, passwords: seq<string>, ntlm: Digest, i: nat)
    requires i < |entries| && entries[i].isFile && entries[i].lines.Some?
    requires forall k :: 0 <= k < i ==> !entries[k].isFile
    ensures Expected(entries[..i + 1], passwords, ntlm)
            == Hits(entries[i].name, HashSet(entries[i].lines.value), passwords, ntlm)
  {
    var f := entries[i];
    assert entries[..i + 1] == entries[..i] + [f];
    NoRegularFiles(map[], entries[..i], passwords, ntlm);
    ExpectedSnoc(entries[..i], f, passwords, ntlm);
  }
}
