/** The genome-build resolver: maps the second `_`-separated field of the input
    file name to a UCSC build name through a fixed table of builds and their
    aliases (`get_build_info`). */
module BuildInfo {
  import opened PyString

  /** One row of the build table: a UCSC build name and the prefixes of other
      naming schemes that also denote it. */
  datatype Entry = Entry(key: string, aliases: seq<string>)

  /** The table in its declaration order, which is also Python's dict order. */
  const BuildTable: seq<Entry> := [
    Entry("hg38", ["GRCh38"]),
    Entry("hg19", ["GRCh37", "b37"]),
    Entry("mm10", ["GRCm38"]),
    Entry("mm9", ["MGSCv37"]),
    Entry("rn6", ["Rnor_6.0"])
  ]

  /** The error raised when the name does not unpack into exactly four fields. */
  datatype UnpackError = WrongFieldCount(got: nat)

  datatype Result<T> = Ok(value: T) | Err(error: UnpackError)

  /** `token.startswith(tuple(prefixes))`. */
  predicate StartsWithAny(token: string, prefixes: seq<string>)
  {
    exists a :: a in prefixes && StartsWith(token, a)
  }

  /** The condition of the list comprehension: the token is the key itself or
      starts with one of the key's aliases. */
  predicate EntryMatches(e: Entry, token: string)
  {
    e.key == token || StartsWithAny(token, e.aliases)
  }

  /** The list comprehension: the keys of the matching rows, in table order. */
  function MatchingKeys(table: seq<Entry>, token: string): (keys: seq<string>)
    ensures |keys| <= |table|
    ensures forall k :: k in keys ==> exists i :: 0 <= i < |table| && table[i].key == k && EntryMatches(table[i], token)
  {
    if table == [] then []
    else
      var rest := MatchingKeys(table[1..], token);
      assert forall k :: k in rest ==> exists i :: 0 <= i < |table| && table[i].key == k && EntryMatches(table[i], token) by {
        forall k | k in rest ensures exists i :: 0 <= i < |table| && table[i].key == k && EntryMatches(table[i], token) {
          var i :| 0 <= i < |table[1..]| && table[1..][i].key == k && EntryMatches(table[1..][i], token);
          assert table[i + 1] == table[1..][i];
        }
      }
      if EntryMatches(table[0], token) then [table[0].key] + rest else rest
  }

  /** The build named by a token: the first matching key, or "" when none matches. */
  function ResolveBuild(token: string): (build: string)
  {
    var keys := MatchingKeys(BuildTable, token);
    if |keys| > 0 then keys[0] else ""
  }

  /** `get_build_info(input_file)`: unpack the name into exactly four `_`-separated
      fields and resolve the second one. */
  function GetBuildInfo(inputFile: string): (r: Result<string>)
  {
    var fields := SplitOn(inputFile, "_");
    if |fields| != 4 then Err(WrongFieldCount(|fields|))
    else Ok(ResolveBuild(fields[1]))
  }

  // ---------------------------------------------------------------------------
  // The comprehension over an arbitrary table.

  lemma {:induction false} MatchingKeysNone(table: seq<Entry>, token: string)
    requires forall i :: 0 <= i < |table| ==> !EntryMatches(table[i], token)
    ensures MatchingKeys(table, token) == []
  {
    if table != [] {
      assert forall i :: 0 <= i < |table[1..]| ==> table[1..][i] == table[i + 1];
      MatchingKeysNone(table[1..], token);
    }
  }

  lemma {:induction false} MatchingKeysSingle(table: seq<Entry>, token: string, m: nat)
    requires m < |table| && EntryMatches(table[m], token)
    requires forall i :: 0 <= i < |table| && i != m ==> !EntryMatches(table[i], token)
    ensures MatchingKeys(table, token) == [table[m].key]
  {
    assert forall i :: 0 <= i < |table[1..]| ==> table[1..][i] == table[i + 1];
    if m == 0 {
      MatchingKeysNone(table[1..], token);
    } else {
      MatchingKeysSingle(table[1..], token, m - 1);
    }
  }

  /** Two prefixes of one string are prefixes of each other. */
  lemma PrefixesComparable(a: string, b: string, t: string)
    ensures StartsWith(t, a) && StartsWith(t, b) ==> StartsWith(b, a) || StartsWith(a, b)
  {
    if a <= t && b <= t && |a| <= |b| {
      assert forall k :: 0 <= k < |a| ==> a[k] == t[k] == b[k];
    }
  }

  /** No two rows of a table can match the same token when the keys differ, no
      alias of one row starts another row's key, and no alias of one row is a
      prefix of an alias of another. */
  ghost predicate Separated(table: seq<Entry>)
  {
    forall i, j :: 0 <= i < |table| && 0 <= j < |table| && i != j ==>
      && table[i].key != table[j].key
      && (forall a :: a in table[i].aliases ==> !StartsWith(table[j].key, a))
      && (forall a, b :: a in table[i].aliases && b in table[j].aliases ==> !StartsWith(b, a))
  }

  lemma SeparatedAtMostOne(table: seq<Entry>, token: string, i: nat, j: nat)
    requires Separated(table)
    requires i < |table| && j < |table| && i != j
    ensures !(EntryMatches(table[i], token) && EntryMatches(table[j], token))
  {
    forall a, b | a in table[i].aliases && b in table[j].aliases
      ensures !(StartsWith(token, a) && StartsWith(token, b))
    {
      PrefixesComparable(a, b, token);
    }
  }

  lemma BuildTableKeysDistinct(i: nat, j: nat)
    requires i < |BuildTable| && j < |BuildTable| && i != j
    ensures BuildTable[i].key != BuildTable[j].key
  {
    var t := BuildTable;
    assert t[i].key[0] == t[j].key[0] ==> t[i].key[1..] != t[j].key[1..];
  }

  lemma BuildTableAliasesApart(i: nat, j: nat, a: string, b: string)
    requires i < |BuildTable| && j < |BuildTable| && i != j
    requires a in BuildTable[i].aliases && b in BuildTable[j].aliases
    ensures !StartsWith(b, a)
  {
    assert a != b;
    assert a[0] == b[0] ==> a[3] != b[3] || a[5] != b[5];
  }

  lemma BuildTableAliasNotKey(i: nat, j: nat, a: string)
    requires i < |BuildTable| && j < |BuildTable| && i != j
    requires a in BuildTable[i].aliases
    ensures !StartsWith(BuildTable[j].key, a)
  {
    assert a[0] != BuildTable[j].key[0];
  }

  lemma BuildTableSeparated()
    ensures Separated(BuildTable)
  {
    var t := BuildTable;
    forall i, j | 0 <= i < |t| && 0 <= j < |t| && i != j
      ensures t[i].key != t[j].key
      ensures forall a :: a in t[i].aliases ==> !StartsWith(t[j].key, a)
      ensures forall a, b :: a in t[i].aliases && b in t[j].aliases ==> !StartsWith(b, a)
    {
      BuildTableKeysDistinct(i, j);
      forall a | a in t[i].aliases ensures !StartsWith(t[j].key, a) {
        BuildTableAliasNotKey(i, j, a);
      }
      forall a, b | a in t[i].aliases && b in t[j].aliases ensures !StartsWith(b, a) {
        BuildTableAliasesApart(i, j, a, b);
      }
    }
  }

  // ---------------------------------------------------------------------------
  // The resolver over the fixed table.

  /** For any token at most one key of the table matches, so the first match is
      the only one and dict order does not decide the result. */
  lemma AtMostOneMatch(token: string)
    ensures |MatchingKeys(BuildTable, token)| <= 1
  {
    BuildTableSeparated();
    if m :| 0 <= m < |BuildTable| && EntryMatches(BuildTable[m], token) {
      forall i | 0 <= i < |BuildTable| && i != m ensures !EntryMatches(BuildTable[i], token) {
        SeparatedAtMostOne(BuildTable, token, i, m);
      }
      MatchingKeysSingle(BuildTable, token, m);
    } else {
      MatchingKeysNone(BuildTable, token);
    }
  }

  /** A token resolves to a key exactly when that key's row matches it. */
  lemma ResolveBuildMatches(token: string, i: nat)
    requires i < |BuildTable|
    ensures ResolveBuild(token) == BuildTable[i].key <==> EntryMatches(BuildTable[i], token)
  {
    BuildTableSeparated();
    if m :| 0 <= m < |BuildTable| && EntryMatches(BuildTable[m], token) {
      forall j | 0 <= j < |BuildTable| && j != m ensures !EntryMatches(BuildTable[j], token) {
        SeparatedAtMostOne(BuildTable, token, j, m);
      }
      MatchingKeysSingle(BuildTable, token, m);
    } else {
      MatchingKeysNone(BuildTable, token);
    }
  }

  /** A token resolves to "" exactly when no row matches it. */
  lemma ResolveBuildUnknown(token: string)
    ensures ResolveBuild(token) == "" <==> forall i :: 0 <= i < |BuildTable| ==> !EntryMatches(BuildTable[i], token)
  {
    if forall i :: 0 <= i < |BuildTable| ==> !EntryMatches(BuildTable[i], token) {
      MatchingKeysNone(BuildTable, token);
    } else {
      var m :| 0 <= m < |BuildTable| && EntryMatches(BuildTable[m], token);
      ResolveBuildMatches(token, m);
    }
  }

  /** The resolver only ever yields one of the five build names or "". */
  lemma ResolveBuildRange(token: string)
    ensures ResolveBuild(token) in {"hg38", "hg19", "mm10", "mm9", "rn6", ""}
  {
    var keys := MatchingKeys(BuildTable, token);
    if |keys| > 0 {
      assert keys[0] in keys;
    }
  }

  /** A token that starts with one of a row's aliases resolves to that row's key. */
  lemma AliasResolves(i: nat, alias: string, rest: string)
    requires i < |BuildTable| && alias in BuildTable[i].aliases
    ensures ResolveBuild(alias + rest) == BuildTable[i].key
  {
    assert (alias + rest)[..|alias|] == alias;
    ResolveBuildMatches(alias + rest, i);
  }

  /** A token whose first character starts no key and no alias is unknown. */
  lemma ResolveBuildForeignInitial(token: string)
    requires token != [] && token[0] !in {'h', 'm', 'r', 'G', 'b', 'M', 'R'}
    ensures ResolveBuild(token) == ""
  {
    forall i | 0 <= i < |BuildTable| ensures !EntryMatches(BuildTable[i], token) {
      forall a | a in BuildTable[i].aliases ensures !StartsWith(token, a) {
        assert a[0] in {'G', 'b', 'M', 'R'};
      }
    }
    ResolveBuildUnknown(token);
  }

  /** Alias prefixes of other naming schemes resolve to the UCSC name. */
  lemma AliasPrefixes(rest: string)
    ensures ResolveBuild("GRCh38" + rest) == "hg38"
    ensures ResolveBuild("GRCh37" + rest) == "hg19"
    ensures ResolveBuild("b37" + rest) == "hg19"
    ensures ResolveBuild("GRCm38" + rest) == "mm10"
    ensures ResolveBuild("MGSCv37" + rest) == "mm9"
  {
    AliasResolves(0, "GRCh38", rest);
    AliasResolves(1, "GRCh37", rest);
    AliasResolves(1, "b37", rest);
    AliasResolves(2, "GRCm38", rest);
    AliasResolves(3, "MGSCv37", rest);
  }

  /** A token without '_' (every field of a `split('_')` is one) can never start
      with the alias `Rnor_6.0`, so it resolves to `rn6` only when it is `rn6`. */
  lemma Rn6OnlyExact(token: string)
    requires '_' !in token
    ensures ResolveBuild(token) == "rn6" <==> token == "rn6"
  {
    ResolveBuildMatches(token, 4);
    assert !StartsWith(token, "Rnor_6.0") by {
      assert "Rnor_6.0"[4] == '_';
      assert forall k :: 0 <= k < |token| ==> token[k] != '_';
    }
  }

  // ---------------------------------------------------------------------------
  // Unpacking the input name.

  /** The name unpacks, and a build is resolved, exactly when it holds three '_'. */
  lemma GetBuildInfoFails(inputFile: string)
    ensures GetBuildInfo(inputFile).Err? <==> multiset(inputFile)['_'] != 3
    ensures GetBuildInfo(inputFile).Err? ==> GetBuildInfo(inputFile).error.got == multiset(inputFile)['_'] + 1
  {
    SplitOnChar(inputFile, '_');
  }

  /** A name built by joining '_'-free fields with '_' unpacks only when there
      are four of them, and then resolves the second. */
  lemma GetBuildInfoOfJoin(fields: seq<string>)
    requires |fields| >= 1
    requires forall f :: f in fields ==> '_' !in f
    ensures GetBuildInfo(JoinWith(fields, "_")) ==
      if |fields| == 4 then Ok(ResolveBuild(fields[1])) else Err(WrongFieldCount(|fields|))
  {
    JoinThenSplit(fields, '_');
  }

  /** A name built from four '_'-free fields resolves its second field. */
  lemma GetBuildInfoOfFields(a: string, token: string, b: string, c: string)
    requires '_' !in a && '_' !in token && '_' !in b && '_' !in c
    ensures GetBuildInfo(a + "_" + token + "_" + b + "_" + c) == Ok(ResolveBuild(token))
  {
    var fields := [a, token, b, c];
    assert fields[1..] == [token, b, c];
    assert fields[1..][1..] == [b, c];
    assert fields[1..][1..][1..] == [c];
    assert JoinWith(fields[1..][1..], "_") == b + "_" + c;
    assert JoinWith(fields[1..], "_") == token + "_" + (b + "_" + c);
    assert JoinWith(fields, "_") == a + "_" + (token + "_" + (b + "_" + c));
    assert a + "_" + token + "_" + b + "_" + c == a + "_" + (token + "_" + (b + "_" + c));
    JoinThenSplit(fields, '_');
  }

  /** `rn6` is reported only for names whose second field is exactly `rn6`. */
  lemma GetBuildInfoRn6(inputFile: string)
    requires GetBuildInfo(inputFile) == Ok("rn6")
    ensures SplitOn(inputFile, "_")[1] == "rn6"
  {
    var fields := SplitOn(inputFile, "_");
    SplitOnChar(inputFile, '_');
    assert fields[1] in fields;
    Rn6OnlyExact(fields[1]);
  }

  // The session names the pipeline produces, `<sample>_<build>_temp_igv.txt`.

  /** Such a name resolves its build field. */
  lemma SessionNameBuild(sample: string, token: string)
    requires '_' !in sample && '_' !in token
    ensures GetBuildInfo(sample + "_" + token + "_temp_igv.txt") == Ok(ResolveBuild(token))
  {
    GetBuildInfoOfFields(sample, token, "temp", "igv.txt");
    assert "_" + "temp" + "_" + "igv.txt" == "_temp_igv.txt";
    assert sample + "_" + token + "_" + "temp" + "_" + "igv.txt" == sample + "_" + token + ("_" + "temp" + "_" + "igv.txt");
  }

  lemma SessionNameExact(sample: string)
    requires '_' !in sample
    ensures GetBuildInfo(sample + "_" + "hg19" + "_temp_igv.txt") == Ok("hg19")
  {
    SessionNameBuild(sample, "hg19");
    ResolveBuildMatches("hg19", 1);
  }

  lemma SessionNameAlias(sample: string)
    requires '_' !in sample
    ensures GetBuildInfo(sample + "_" + "b37" + "_temp_igv.txt") == Ok("hg19")
  {
    SessionNameBuild(sample, "b37");
    AliasResolves(1, "b37", "");
    assert "b37" + "" == "b37";
  }

  lemma SessionNameUnknown(sample: string)
    requires '_' !in sample
    ensures GetBuildInfo(sample + "_" + "dm6" + "_temp_igv.txt") == Ok("")
  {
    SessionNameBuild(sample, "dm6");
    ResolveBuildForeignInitial("dm6");
  }

  lemma SessionNameMalformed(sample: string)
    requires '_' !in sample
    ensures GetBuildInfo(sample + "_hg19_igv.xml") == Err(WrongFieldCount(3))
  {
    var fields := [sample, "hg19", "igv.xml"];
    assert fields[1..] == ["hg19", "igv.xml"];
    assert fields[1..][1..] == ["igv.xml"];
    assert JoinWith(fields[1..], "_") == "hg19_igv.xml";
    assert JoinWith(fields, "_") == sample + "_hg19_igv.xml";
    GetBuildInfoOfJoin(fields);
  }
}
