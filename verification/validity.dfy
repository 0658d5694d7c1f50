/** The validity gate: pure accept/reject decisions on keys, table names,
    values, rows, shard coordinates and directory shapes. A `false` predicate
    (or `Fail`) is a `ValidityCheckFailedException`; the engine converts it into
    the exception its own contract promises. */
module ValidityChecker {
  import opened Wrappers
  import opened Columns

  const MinKeyLength: nat := 1
  const MaxKeyLength: nat := 0x10_0000  // 1 << 20

  /** The outcome of a check that can also blow up with an unchecked exception. */
  datatype Outcome =
    | Pass   // returns normally
    | Fail   // throws ValidityCheckFailedException
    | Crash  // an unchecked exception escapes (NumberFormatException, NullPointerException, ...)

  // ---------------------------------------------------------------------------
  // Keys and table names

  /** A character matched by Java's `\s`: space, tab, line feed, vertical tab, form feed, carriage return. */
  predicate IsWhitespace(c: char)
  {
    c == ' ' || c == '\t' || c == '\n' || c == '\r' || c as int == 0x0B || c as int == 0x0C
  }

  /** The pattern `\s+|[\r\n]` finds a match somewhere in `s`. */
  predicate ContainsWhitespace(s: string)
  {
    exists i :: 0 <= i < |s| && IsWhitespace(s[i])
  }

  /** A character `String.trim()` strips from either end: any code point up to U+0020. */
  predicate Trimmable(c: char)
  {
    c as int <= 0x20
  }

  /** How many characters `trim()` strips from the front of `s`. */
  function LeadingTrimmed(s: string): (n: nat)
    ensures n <= |s|
    ensures forall i :: 0 <= i < n ==> Trimmable(s[i])
    ensures n < |s| ==> !Trimmable(s[n])
  {
    if |s| > 0 && Trimmable(s[0]) then 1 + LeadingTrimmed(s[1..]) else 0
  }

  /** How many characters `trim()` strips from the back of `s`. */
  function TrailingTrimmed(s: string): (n: nat)
    ensures n <= |s|
    ensures forall i :: |s| - n <= i < |s| ==> Trimmable(s[i])
    ensures n < |s| ==> !Trimmable(s[|s| - n - 1])
  {
    if |s| > 0 && Trimmable(s[|s| - 1]) then 1 + TrailingTrimmed(s[..|s| - 1]) else 0
  }

  /** `String.trim()`. */
  function Trim(s: string): (r: string)
    ensures |r| <= |s|
    ensures |r| > 0 ==> !Trimmable(r[0]) && !Trimmable(r[|r| - 1])
    ensures (forall i :: 0 <= i < |s| ==> !Trimmable(s[i])) ==> r == s
    ensures (forall i :: 0 <= i < |s| ==> Trimmable(s[i])) ==> r == []
    ensures LeadingTrimmed(s) + |r| <= |s| && r == s[LeadingTrimmed(s)..LeadingTrimmed(s) + |r|]
    ensures forall i :: LeadingTrimmed(s) + |r| <= i < |s| ==> Trimmable(s[i])
  {
    var rest := s[LeadingTrimmed(s)..];
    rest[..|rest| - TrailingTrimmed(rest)]
  }

  /** `String.length()`: the number of UTF-16 code units, two for a character
      outside the Basic Multilingual Plane. */
  function Utf16Length(s: string): (n: nat)
    ensures |s| <= n <= 2 * |s|
    ensures (forall i :: 0 <= i < |s| ==> s[i] as int < 0x1_0000) ==> n == |s|
  {
    if |s| == 0 then 0
    else Utf16Length(s[..|s| - 1]) + (if s[|s| - 1] as int < 0x1_0000 then 1 else 2)
  }

  /** `checkTableKey`: a non-null key without whitespace whose trimmed length,
      in UTF-16 code units, lies in [1, 2^20]. */
  predicate KeyValid(key: Option<string>)
  {
    && key.Some?
    && MinKeyLength <= Utf16Length(Trim(key.value)) <= MaxKeyLength
    && !ContainsWhitespace(key.value)
  }

  /** A character matched by Java's `\w`. */
  predicate IsWordChar(c: char)
  {
    ('a' <= c <= 'z') || ('A' <= c <= 'Z') || ('0' <= c <= '9') || c == '_'
  }

  /** `checkMultiTableName`: a valid key that also matches `\w+` as a whole. */
  predicate TableNameValid(name: Option<string>): (valid: bool)
    ensures valid ==> name.Some? && MinKeyLength <= |name.value| <= MaxKeyLength
  {
    && KeyValid(name)
    && |name.value| > 0
    && forall i :: 0 <= i < |name.value| ==> IsWordChar(name.value[i])
  }

  /** A table name is valid exactly when it is 1 to 2^20 word characters:
      word characters are never trimmed and are never whitespace. */
  lemma TableNameShape(s: string)
    ensures TableNameValid(Some(s)) <==>
              && 1 <= |s| <= MaxKeyLength
              && forall i :: 0 <= i < |s| ==> IsWordChar(s[i])
  {
    if forall i :: 0 <= i < |s| ==> IsWordChar(s[i]) {
      assert forall i :: 0 <= i < |s| ==> !Trimmable(s[i]) by {
        forall i | 0 <= i < |s| ensures !Trimmable(s[i]) {
          assert IsWordChar(s[i]);
        }
      }
      assert Trim(s) == s;
      assert Utf16Length(s) == |s|;
      assert !ContainsWhitespace(s) by {
        forall i | 0 <= i < |s| ensures !IsWhitespace(s[i]) {
          assert IsWordChar(s[i]);
        }
      }
    }
  }

  /** Every valid key holds at least one character that is neither trimmed nor whitespace. */
  lemma ValidKeyHasVisibleChar(key: Option<string>)
    requires KeyValid(key)
    ensures exists i :: 0 <= i < |key.value| && !Trimmable(key.value[i])
  {
    var s := key.value;
    var t := Trim(s);
    assert Utf16Length(t) <= 2 * |t|;
    assert |t| > 0;
  }

  // ---------------------------------------------------------------------------
  // Offsets, values, signatures, column types

  /** `checkTableOffset`: rejects exactly the negative offsets. */
  predicate OffsetValid(offset: int)
  {
    offset >= 0
  }

  /** `checkTableValue`: rejects exactly null. */
  predicate ValueValid<T>(value: Option<T>)
  {
    value.Some?
  }

  /** `checkStoreableTableSignature`: rejects exactly the empty list of column types. */
  predicate SignatureValid(signature: seq<JClass>)
  {
    |signature| > 0
  }

  /** `checkColumnType`: the class is one a column may be declared with. */
  predicate ColumnTypeValid(c: JClass)
  {
    Supported(c)
  }

  /** A single cell fits its declared column class: null always does. */
  predicate CellFits(declared: JClass, cell: Option<Value>)
  {
    cell.None? || Assignable(declared, cell.value.cls)
  }

  /** `checkValueFormat`, declaratively: a null row passes; otherwise the row has
      exactly the table's number of columns and each non-null cell fits. */
  predicate ValueFormatValid(columnTypes: seq<JClass>, row: Option<Row>)
  {
    || row.None?
    || (&& |row.value.cells| == |columnTypes|
        && forall i :: 0 <= i < |columnTypes| ==> CellFits(columnTypes[i], row.value.cells[i]))
  }

  /** `checkValueFormat` as the source runs it: walk the table's columns, stop
      with "too few columns" when the row runs out and with a type error on the
      first misfit, then probe one column past the end for "too many columns". */
  method CheckValueFormat(columnTypes: seq<JClass>, row: Option<Row>) returns (ok: bool)
    ensures ok <==> ValueFormatValid(columnTypes, row)
  {
    if row.None? {
      return true;
    }
    var cells := row.value.cells;
    var i := 0;
    while i < |columnTypes|
      invariant 0 <= i <= |columnTypes|
      invariant i <= |cells|
      invariant forall j :: 0 <= j < i ==> CellFits(columnTypes[j], cells[j])
    {
      if i >= |cells| {
        return false;
      }
      if cells[i].Some? && !Assignable(columnTypes[i], cells[i].value.cls) {
        return false;
      }
      i := i + 1;
    }
    ok := i >= |cells|;
  }

  // ---------------------------------------------------------------------------
  // Shard coordinates

  function Abs(x: int): nat
  {
    if x < 0 then -x else x
  }

  /** The quotient of natural numbers, by repeated subtraction. */
  function Quotient(a: nat, b: nat): nat
    requires b > 0
    decreases a
  {
    if a < b then 0 else 1 + Quotient(a - b, b)
  }

  /** The remainder of natural numbers, by repeated subtraction. */
  function Remainder(a: nat, b: nat): (r: nat)
    requires b > 0
    ensures r < b
    decreases a
  {
    if a < b then a else Remainder(a - b, b)
  }

  /** Java's `/` on `int`: the quotient truncated toward zero. */
  function JavaDiv(a: int, b: int): int
    requires b != 0
  {
    var q: int := Quotient(Abs(a), Abs(b));
    if (a < 0) != (b < 0) then -q else q
  }

  /** Java's `%` on `int`: the remainder of the truncating division, with the sign of the dividend. */
  function JavaRem(a: int, b: int): int
    requires b != 0
  {
    var r: int := Remainder(Abs(a), Abs(b));
    if a < 0 then -r else r
  }

  /** The shard a key belongs to: hash = |first signed byte|, directory =
      hash mod maxDirNum, file = (hash / maxFileNum) mod maxFileNum. */
  function ShardOf(keyBytes: seq<Byte>, maxFileNum: nat, maxDirNum: nat): (dirAndFile: (nat, nat))
    requires |keyBytes| > 0 && maxFileNum > 0 && maxDirNum > 0
    ensures dirAndFile.0 < maxDirNum && dirAndFile.1 < maxFileNum
  {
    var hash := Abs(SignedByte(keyBytes[0]));
    (Remainder(hash, maxDirNum), Remainder(Quotient(hash, maxFileNum), maxFileNum))
  }

  /** `checkKeyStorageAffiliation(key, fileNum, dirNum, maxFileNum, maxDirNum)`
      on the key's encoded bytes, with Java's integer operators. An empty key
      (no byte 0) or a zero partition count throws an unchecked exception. */
  function KeyStorageAffiliation(keyBytes: seq<Byte>, fileNum: int, dirNum: int,
                                 maxFileNum: int, maxDirNum: int): (r: Outcome)
    ensures |keyBytes| == 0 || maxDirNum == 0 ==> r == Crash
    ensures r == Crash ==> |keyBytes| == 0 || maxDirNum == 0 || maxFileNum == 0
    ensures r == Pass ==> 0 <= dirNum <= 128 && dirNum < Abs(maxDirNum)
    ensures r == Pass && maxFileNum > 0 ==> 0 <= fileNum < maxFileNum
  {
    if |keyBytes| == 0 then Crash
    else AffiliationOfHash(Abs(SignedByte(keyBytes[0])), fileNum, dirNum, maxFileNum, maxDirNum)
  }

  /** The arithmetic of the affiliation check once the hash is known; a zero
      partition count is an ArithmeticException. */
  function AffiliationOfHash(hash: nat, fileNum: int, dirNum: int, maxFileNum: int, maxDirNum: int): (r: Outcome)
    ensures maxDirNum == 0 ==> r == Crash
    ensures r == Crash ==> maxDirNum == 0 || maxFileNum == 0
    ensures r == Pass ==> 0 <= dirNum <= hash && dirNum < Abs(maxDirNum)
    ensures r == Pass && maxFileNum > 0 ==> 0 <= fileNum < maxFileNum
  {
    if maxDirNum == 0 then Crash
    else if JavaRem(hash, maxDirNum) != dirNum then Fail
    else if maxFileNum == 0 then Crash
    else if JavaRem(JavaDiv(hash, maxFileNum), maxFileNum) != fileNum then Fail
    else Pass
  }

  /** With positive partition counts, a key passes the affiliation check for
      exactly one (directory, file) pair, its shard, and that pair is in range. */
  lemma AffiliationExactlyOne(keyBytes: seq<Byte>, fileNum: int, dirNum: int, maxFileNum: nat, maxDirNum: nat)
    requires |keyBytes| > 0 && maxFileNum > 0 && maxDirNum > 0
    ensures (KeyStorageAffiliation(keyBytes, fileNum, dirNum, maxFileNum, maxDirNum) == Pass) ==
            ((dirNum, fileNum) == ShardOf(keyBytes, maxFileNum, maxDirNum))
    ensures KeyStorageAffiliation(keyBytes, fileNum, dirNum, maxFileNum, maxDirNum) != Crash
  {
    AffiliationOfHashExactlyOne(Abs(SignedByte(keyBytes[0])), fileNum, dirNum, maxFileNum, maxDirNum);
  }

  lemma AffiliationOfHashExactlyOne(hash: nat, fileNum: int, dirNum: int, maxFileNum: nat, maxDirNum: nat)
    requires maxFileNum > 0 && maxDirNum > 0
    ensures (AffiliationOfHash(hash, fileNum, dirNum, maxFileNum, maxDirNum) == Pass) ==
            (dirNum == Remainder(hash, maxDirNum) && fileNum == Remainder(Quotient(hash, maxFileNum), maxFileNum))
    ensures AffiliationOfHash(hash, fileNum, dirNum, maxFileNum, maxDirNum) != Crash
  {
    assert JavaRem(hash, maxDirNum) == Remainder(hash, maxDirNum);
    assert JavaDiv(hash, maxFileNum) == Quotient(hash, maxFileNum);
  }

  // ---------------------------------------------------------------------------
  // Directory shapes

  /** What `File.isFile()` / `File.isDirectory()` report for a path. */
  datatype Kind = RegularFile | Directory | Other  // Other: missing, or neither a file nor a directory

  /** A path on disk: its name, kind, `length()`, and (for a directory) its listing. */
  datatype Node = Node(name: string, kind: Kind, length: nat, children: seq<Node>)

  /** `checkMultiTableDataBaseRoot`: a non-null path naming a directory whose
      entries are all directories. */
  predicate DataBaseRootValid(root: Option<Node>)
  {
    && root.Some?
    && root.value.kind == Directory
    && forall c :: c in root.value.children ==> c.kind == Directory
  }

  predicate IsSignatureFile(n: Node)
  {
    n.kind == RegularFile && n.name == "signature.tsv"
  }

  predicate IsSizeFile(n: Node)
  {
    n.kind == RegularFile && n.name == "size.tsv"
  }

  /** A non-empty directory holding only non-empty regular files. */
  predicate IsShardDirectory(n: Node)
  {
    && n.kind == Directory
    && |n.children| > 0
    && forall f :: f in n.children ==> f.kind == RegularFile && f.length > 0
  }

  predicate TableEntryAllowed(n: Node)
  {
    IsSignatureFile(n) || IsSizeFile(n) || IsShardDirectory(n)
  }

  /** `checkMultiStoreableTableRoot`, declaratively: a directory whose entries
      are `signature.tsv`, `size.tsv` or shard directories, with a signature present. */
  predicate StoreableTableRootValid(root: Node)
  {
    && root.kind == Directory
    && (forall c :: c in root.children ==> TableEntryAllowed(c))
    && (exists c :: c in root.children && IsSignatureFile(c))
  }

  /** `checkMultiStoreableTableRoot` as the source runs it: one pass over the
      entries, remembering whether the signature was seen. */
  method CheckMultiStoreableTableRoot(root: Node) returns (ok: bool)
    ensures ok <==> StoreableTableRootValid(root)
  {
    if root.kind != Directory {
      return false;
    }
    var signatureSeen := false;
    var i := 0;
    while i < |root.children|
      invariant 0 <= i <= |root.children|
      invariant forall j :: 0 <= j < i ==> TableEntryAllowed(root.children[j])
      invariant signatureSeen <==> exists j :: 0 <= j < i && IsSignatureFile(root.children[j])
    {
      var content := root.children[i];
      if content.kind == RegularFile && content.name == "signature.tsv" {
        signatureSeen := true;
      } else if content.kind == RegularFile && content.name == "size.tsv" {
      } else {
        if content.kind != Directory || |content.children| == 0 {
          assert content in root.children && !TableEntryAllowed(content);
          return false;
        }
        var k := 0;
        while k < |content.children|
          invariant 0 <= k <= |content.children|
          invariant forall j :: 0 <= j < k ==>
                      content.children[j].kind == RegularFile && content.children[j].length > 0
        {
          var file := content.children[k];
          if file.kind != RegularFile || file.length == 0 {
            assert file in content.children;
            assert content in root.children && !TableEntryAllowed(content);
            return false;
          }
          k := k + 1;
        }
      }
      i := i + 1;
    }
    if signatureSeen {
      var j :| 0 <= j < |root.children| && IsSignatureFile(root.children[j]);
      assert root.children[j] in root.children;
    }
    ok := signatureSeen;
  }

  // ---------------------------------------------------------------------------
  // Shard directory and shard file names

  predicate IsDigit(c: char)
  {
    '0' <= c <= '9'
  }

  /** Characters the regex `.` does not match. */
  predicate IsLineTerminator(c: char)
  {
    c == '\n' || c == '\r' || c as int == 0x85 || c as int == 0x2028 || c as int == 0x2029
  }

  /** Position of the separator in a name `<one or two digits><separator><ext>`. */
  function SeparatorIndex(name: string, ext: string): int
  {
    |name| - |ext| - 1
  }

  /** The name has one or two digits, then one separator character, then `ext`. */
  predicate DigitsThen(name: string, ext: string)
  {
    var k := SeparatorIndex(name, ext);
    && 1 <= k <= 2
    && name[k + 1..] == ext
    && forall i :: 0 <= i < k ==> IsDigit(name[i])
  }

  /** `name.matches("\\d\\d?." + ext)`, with the unescaped `.` matching any
      character but a line terminator. */
  predicate LooseShardName(name: string, ext: string)
  {
    DigitsThen(name, ext) && !IsLineTerminator(name[SeparatorIndex(name, ext)])
  }

  /** `name.matches("\\d\\d?\\." + ext)`: the separator is a literal dot. */
  predicate StrictShardName(name: string, ext: string)
  {
    DigitsThen(name, ext) && name[SeparatorIndex(name, ext)] == '.'
  }

  /** `split("\\.")[0]` for a name that starts with a digit: everything before the first dot. */
  function FirstToken(s: string): (t: string)
    ensures |t| <= |s| && t == s[..|t|]
    ensures forall i :: 0 <= i < |t| ==> t[i] != '.'
    ensures |t| < |s| ==> s[|t|] == '.'
  {
    if |s| == 0 || s[0] == '.' then [] else [s[0]] + FirstToken(s[1..])
  }

  function DecimalValue(digits: string): nat
    requires forall i :: 0 <= i < |digits| ==> IsDigit(digits[i])
  {
    if |digits| == 0 then 0
    else
      var last := digits[|digits| - 1];
      assert IsDigit(last);
      10 * DecimalValue(digits[..|digits| - 1]) + (last as int - '0' as int)
  }

  /** `Integer.parseInt` on a token that starts with a digit: `None` is a NumberFormatException. */
  function ParseDecimal(token: string): Option<nat>
  {
    if |token| == 0 || exists i :: 0 <= i < |token| && !IsDigit(token[i]) then None
    else if DecimalValue(token) >= 0x8000_0000 then None
    else Some(DecimalValue(token))
  }

  /** `checkMultiFileStorageDir(dir, maxValue)` as written: the name is matched
      with an unescaped dot, the range test `n >= maxValue && n < 0` can never
      hold, and listing a non-directory dereferences null. */
  function CheckStorageDirAsWritten(dir: Node, maxValue: int): (r: Outcome)
    ensures r == Pass <==>
              && LooseShardName(dir.name, "dir")
              && ParseDecimal(FirstToken(dir.name)).Some?
              && dir.kind == Directory
              && |dir.children| > 0
    ensures r == Crash <==>
              && LooseShardName(dir.name, "dir")
              && (ParseDecimal(FirstToken(dir.name)).None? || dir.kind != Directory)
  {
    if !LooseShardName(dir.name, "dir") then Fail
    else match ParseDecimal(FirstToken(dir.name))
      case None => Crash
      case Some(n) =>
        if n >= maxValue && n < 0 then Fail
        else if dir.kind != Directory then Crash
        else if |dir.children| == 0 then Fail
        else Pass
  }

  /** `checkMultiFileStorageFile(file, maxValue)` as written. */
  function CheckStorageFileAsWritten(file: Node, maxValue: int): (r: Outcome)
    ensures r == Pass <==>
              && LooseShardName(file.name, "dat")
              && ParseDecimal(FirstToken(file.name)).Some?
              && file.length > 0
    ensures r == Crash <==> LooseShardName(file.name, "dat") && ParseDecimal(FirstToken(file.name)).None?
  {
    if !LooseShardName(file.name, "dat") then Fail
    else match ParseDecimal(FirstToken(file.name))
      case None => Crash
      case Some(n) =>
        if n >= maxValue && n < 0 then Fail
        else if file.length == 0 then Fail
        else Pass
  }

  /** The number a strictly-formed shard name carries. */
  function ShardNumber(name: string, ext: string): nat
    requires StrictShardName(name, ext)
  {
    DecimalValue(name[..SeparatorIndex(name, ext)])
  }

  /** For a strictly-formed name the first token is the digit prefix, so parsing never fails. */
  lemma StrictNameParses(name: string, ext: string)
    requires StrictShardName(name, ext)
    ensures ParseDecimal(FirstToken(name)) == Some(ShardNumber(name, ext))
  {
    var k := SeparatorIndex(name, ext);
    var t := FirstToken(name);
    assert forall i :: 0 <= i < k ==> name[i] != '.' by {
      forall i | 0 <= i < k ensures name[i] != '.' {
        assert IsDigit(name[i]);
      }
    }
    FirstTokenStopsAtDot(name, k);
    assert forall i :: 0 <= i < |t| ==> IsDigit(t[i]);
    DecimalBound(t);
  }

  /** The first token ends at the first dot. */
  lemma {:induction false} FirstTokenStopsAtDot(s: string, k: nat)
    requires k < |s| && s[k] == '.'
    requires forall i :: 0 <= i < k ==> s[i] != '.'
    ensures FirstToken(s) == s[..k]
  {
    if k > 0 {
      FirstTokenStopsAtDot(s[1..], k - 1);
      assert s[..k] == [s[0]] + s[1..][..k - 1];
    }
  }

  /** One or two digits denote a number below 100. */
  lemma DecimalBound(digits: string)
    requires |digits| <= 2
    requires forall i :: 0 <= i < |digits| ==> IsDigit(digits[i])
    ensures DecimalValue(digits) < 100
  {
    if |digits| > 0 {
      DecimalBound(digits[..|digits| - 1]);
    }
  }

  /** `checkMultiFileStorageDir` as evidently intended: a literal dot and a
      range test that rejects numbers outside [0, maxValue). */
  function CheckStorageDir(dir: Node, maxValue: int): (r: Outcome)
    ensures r == Pass <==>
              && StrictShardName(dir.name, "dir")
              && ShardNumber(dir.name, "dir") < maxValue
              && dir.kind == Directory
              && |dir.children| > 0
    ensures dir.kind == Directory ==> r != Crash
  {
    if !StrictShardName(dir.name, "dir") then Fail
    else
      StrictNameParses(dir.name, "dir");
      match ParseDecimal(FirstToken(dir.name))
      case None => Crash
      case Some(n) =>
        if n < 0 || n >= maxValue then Fail
        else if dir.kind != Directory then Crash
        else if |dir.children| == 0 then Fail
        else Pass
  }

  /** `checkMultiFileStorageFile` as evidently intended. */
  function CheckStorageFile(file: Node, maxValue: int): (r: Outcome)
    ensures r == Pass <==>
              && StrictShardName(file.name, "dat")
              && ShardNumber(file.name, "dat") < maxValue
              && file.length > 0
    ensures r != Crash
  {
    if !StrictShardName(file.name, "dat") then Fail
    else
      StrictNameParses(file.name, "dat");
      match ParseDecimal(FirstToken(file.name))
      case None => Crash
      case Some(n) =>
        if n < 0 || n >= maxValue then Fail
        else if file.length == 0 then Fail
        else Pass
  }

  /** Whatever the intended checks accept, the checks as written accept too: a
      literal dot is one of the characters the unescaped dot matches. */
  lemma AsWrittenAcceptsIntended(n: Node, maxValue: int)
    ensures CheckStorageDir(n, maxValue) == Pass ==> CheckStorageDirAsWritten(n, maxValue) == Pass
    ensures CheckStorageFile(n, maxValue) == Pass ==> CheckStorageFileAsWritten(n, maxValue) == Pass
  {
    if StrictShardName(n.name, "dir") {
      StrictNameParses(n.name, "dir");
    }
    if StrictShardName(n.name, "dat") {
      StrictNameParses(n.name, "dat");
    }
  }

  /** As written, the bound passed to the storage checks has no effect at all. */
  lemma StorageChecksIgnoreBound(n: Node, max1: int, max2: int)
    ensures CheckStorageDirAsWritten(n, max1) == CheckStorageDirAsWritten(n, max2)
    ensures CheckStorageFileAsWritten(n, max1) == CheckStorageFileAsWritten(n, max2)
  {
  }

  /** Directory "99.dir" with 16 shard directories allowed: accepted as written, rejected as intended. */
  lemma OutOfRangeDirAccepted()
    ensures CheckStorageDirAsWritten(Node("99.dir", Directory, 0, [Node("1.dat", RegularFile, 1, [])]), 16) == Pass
    ensures CheckStorageDir(Node("99.dir", Directory, 0, [Node("1.dat", RegularFile, 1, [])]), 16) == Fail
  {
    var d := Node("99.dir", Directory, 0, [Node("1.dat", RegularFile, 1, [])]);
    assert LooseShardName(d.name, "dir");
    assert FirstToken(d.name) == "99";
    assert StrictShardName(d.name, "dir");
    assert ShardNumber(d.name, "dir") == 99 by {
      assert d.name[..2] == "99";
      assert DecimalValue("9") == 9;
    }
  }

  /** Directory "3xdir": the unescaped dot lets it match, then `Integer.parseInt("3xdir")` throws. */
  lemma UnescapedDotCrashes()
    ensures CheckStorageDirAsWritten(Node("3xdir", Directory, 0, [Node("1.dat", RegularFile, 1, [])]), 16) == Crash
    ensures CheckStorageDir(Node("3xdir", Directory, 0, [Node("1.dat", RegularFile, 1, [])]), 16) == Fail
  {
    var d := Node("3xdir", Directory, 0, [Node("1.dat", RegularFile, 1, [])]);
    assert LooseShardName(d.name, "dir");
    var t := FirstToken(d.name);
    assert |t| == |d.name| by {
      assert forall i :: 0 <= i < |d.name| ==> d.name[i] != '.';
    }
    assert t == d.name;
    assert !IsDigit(t[1]);
    assert ParseDecimal(t).None?;
    assert d.name[SeparatorIndex(d.name, "dir")] != '.';
  }
}
