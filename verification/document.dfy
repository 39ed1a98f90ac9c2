/** What the script checks before it parses the export: the path handed to
 *  `read_xml_file`, and the namespace `namespace()` reads off the root element's tag. */
module Document {
  import opened Names
  import opened Results

  /** The namespace assumed when the root tag carries none. */
  const DefaultNamespace: string := "http://schemas.microsoft.com/project"

  /** The invisible left-to-right embedding mark (U+202A) that a path copied from the
   *  Windows properties dialog may carry. */
  const EmbeddingMark: char := '\U{202A}'

  /** The two messages `read_xml_file` quits with. */
  datatype ReadError = FileDoesNotExist | NotAnXmlFile

  /** The checks of `read_xml_file` on `path`, where `files` is the set of paths for which
   *  `os.path.isfile` holds. On success the result is the path that would be parsed. */
  function ReadXmlFile(path: string, files: set<string>): (r: Result<string, ReadError>)
    ensures r.Ok? ==> r.value == Strip(path, EmbeddingMark)
    ensures r.Ok? ==> r.value in files && EndsWith(r.value, ".xml")
    ensures r.Ok? ==> r.value == [] || (r.value[0] != EmbeddingMark && r.value[|r.value| - 1] != EmbeddingMark)
    ensures r == Err(FileDoesNotExist) <==> Strip(path, EmbeddingMark) !in files
    ensures r == Err(NotAnXmlFile) <==> Strip(path, EmbeddingMark) in files && !EndsWith(Strip(path, EmbeddingMark), ".xml")
  {
    var p := Strip(path, EmbeddingMark);
    if p !in files then Err(FileDoesNotExist)
    else if !EndsWith(p, ".xml") then Err(NotAnXmlFile)
    else Ok(p)
  }

  /** Marks around the path do not change what `read_xml_file` decides. */
  lemma ReadXmlFileIgnoresMarks(path: string, files: set<string>)
    ensures ReadXmlFile([EmbeddingMark] + path + [EmbeddingMark], files) == ReadXmlFile(path, files)
  {
    StripPadded(path, EmbeddingMark);
  }

  /** An existing file whose name does not end in the lower-case `.xml` is refused before
   *  anything is parsed; a missing one is reported as missing, whatever its suffix. */
  lemma ReadXmlFileOrderOfChecks(files: set<string>)
    ensures "notes.txt" in files ==> ReadXmlFile("notes.txt", files) == Err(NotAnXmlFile)
    ensures "notes.txt" !in files ==> ReadXmlFile("notes.txt", files) == Err(FileDoesNotExist)
  {
    var p := "notes.txt";
    assert Unpadded(p, EmbeddingMark);
    assert Strip(p, EmbeddingMark) == p;
    assert p[|p| - 4..][1] == 't';
    assert !EndsWith(p, ".xml");
  }

  /** The suffix test is case-sensitive: an existing `map.XML` is refused. */
  lemma ReadXmlFileSuffixCaseSensitive(files: set<string>)
    requires "map.XML" in files
    ensures ReadXmlFile("map.XML", files) == Err(NotAnXmlFile)
  {
    var p := "map.XML";
    assert Unpadded(p, EmbeddingMark);
    assert Strip(p, EmbeddingMark) == p;
    assert p[|p| - 4..][1] == 'X';
    assert !EndsWith(p, ".xml");
  }

  /** Character `j` is a `}` that can end a match of `\{.*}` begun just before position `k`:
   *  no line break lies between (the `.` of a Python pattern does not match one). */
  predicate LineBraceAt(tag: string, k: nat, j: int)
  {
    k <= j < |tag| && tag[j] == '}' && forall m :: k <= m < j ==> tag[m] != '\n'
  }

  /** `re.match(r'\{.*}', tag)` can match exactly the first `j + 1` characters. */
  predicate MatchEndsAt(tag: string, j: int)
  {
    tag != [] && tag[0] == '{' && LineBraceAt(tag, 1, j)
  }

  /** The last `}` from position `k` up to the first line break. */
  function ScanEnd(tag: string, k: nat): (r: int)
    requires k <= |tag|
    ensures r == -1 || LineBraceAt(tag, k, r)
    ensures forall j :: LineBraceAt(tag, k, j) ==> j <= r
    decreases |tag| - k
  {
    if k == |tag| || tag[k] == '\n' then -1
    else
      var later := ScanEnd(tag, k + 1);
      assert forall j :: LineBraceAt(tag, k, j) ==> j == k || LineBraceAt(tag, k + 1, j);
      if later == -1 && tag[k] == '}' then k else later
  }

  /** Where the greedy match of `\{.*}` ends, or -1 when the pattern does not match. */
  function MatchEnd(tag: string): (r: int)
    ensures r == -1 <==> forall j :: !MatchEndsAt(tag, j)
    ensures r != -1 ==> MatchEndsAt(tag, r) && forall j :: MatchEndsAt(tag, j) ==> j <= r
  {
    if tag == [] || tag[0] != '{' then -1
    else
      var r := ScanEnd(tag, 1);
      assert r != -1 ==> MatchEndsAt(tag, r);
      r
  }

  /** `namespace(element)`: the text between the leading `{` and the end of the greedy
   *  match, or the default namespace when the tag does not match. */
  function Namespace(tag: string): (ns: string)
    ensures MatchEnd(tag) == -1 ==> ns == DefaultNamespace
    ensures MatchEnd(tag) != -1 ==> "{" + ns + "}" == tag[..MatchEnd(tag) + 1]
  {
    var j := MatchEnd(tag);
    if j == -1 then DefaultNamespace
    else
      assert tag[..j + 1] == [tag[0]] + tag[1..j] + [tag[j]];
      tag[1..j]
  }

  /** ElementTree writes a qualified tag as `{uri}local`; `namespace` gives `uri` back when
   *  the first line of the local name holds no `}`. */
  lemma NamespaceOfQualifiedTag(uri: string, local: string)
    requires '\n' !in uri
    requires forall m :: 0 <= m < |local| && local[m] == '}' ==> '\n' in local[..m]
    ensures Namespace("{" + uri + "}" + local) == uri
  {
    var tag := "{" + uri + "}" + local;
    var j := |uri| + 1;
    assert tag[0] == '{' && tag[j] == '}' && tag[1..j] == uri;
    assert forall m :: 1 <= m < j ==> tag[m] == uri[m - 1];
    assert MatchEndsAt(tag, j);
    forall e | MatchEndsAt(tag, e) ensures e <= j {
      if e > j {
        BreakBeforeLocalBrace(uri, local, e);
      }
    }
  }

  /** A `}` inside the local name of `{uri}local` has a line break before it. */
  lemma BreakBeforeLocalBrace(uri: string, local: string, e: int)
    requires forall m :: 0 <= m < |local| && local[m] == '}' ==> '\n' in local[..m]
    requires |uri| + 1 < e < |uri| + 2 + |local| && ("{" + uri + "}" + local)[e] == '}'
    ensures exists k :: |uri| + 1 < k < e && ("{" + uri + "}" + local)[k] == '\n'
  {
    var tag := "{" + uri + "}" + local;
    var m := e - |uri| - 2;
    assert tag[e] == local[m];
    var n :| 0 <= n < m && local[..m][n] == '\n';
    assert tag[|uri| + 2 + n] == local[n];
  }

  /** A tag that does not open with `{` falls back to the default namespace. */
  lemma NamespaceOfPlainTag(tag: string)
    requires tag == [] || tag[0] != '{'
    ensures Namespace(tag) == DefaultNamespace
  {
  }
}
