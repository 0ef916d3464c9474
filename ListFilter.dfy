/** The whitelist/blacklist line filter: every line of the list file that
    does not start with `#` contributes its stripped text to the set. The
    file is read by the caller; lines keep their line terminator. */
module ListFilter {
  import PyText

  /** The comment test looks at the raw line, before any stripping. */
  predicate IsCommentLine(line: string) {
    |line| > 0 && line[0] == '#'
  }

  /** `line` contributes `x` to the loaded set. */
  predicate KeptAs(line: string, x: string) {
    !IsCommentLine(line) && PyText.Strip(line) == x
  }

  /** `set(line.strip() for line in f if not line.startswith('#'))`. */
  function LoadList(lines: seq<string>): set<string> {
    set i | 0 <= i < |lines| && !IsCommentLine(lines[i]) :: PyText.Strip(lines[i])
  }

  /** Membership in the loaded set: some non-comment line strips to it. */
  lemma LoadListMembers(lines: seq<string>, x: string)
    ensures x in LoadList(lines) <==> exists i :: 0 <= i < |lines| && KeptAs(lines[i], x)
  {
    if x in LoadList(lines) {
      var i :| 0 <= i < |lines| && !IsCommentLine(lines[i]) && PyText.Strip(lines[i]) == x;
      assert KeptAs(lines[i], x);
    }
  }

  /** Each line contributes on its own: the set of a file is the union of
      the sets of any two pieces it is cut into, so neither the order of the
      lines nor how the file is split matters. */
  lemma LoadListConcat(a: seq<string>, b: seq<string>)
    ensures LoadList(a + b) == LoadList(a) + LoadList(b)
  {
    LoadListConcatCovered(a, b);
    LoadListConcatKeeps(a, b);
  }

  /** Every entry of the whole file comes from one of the two pieces. */
  lemma LoadListConcatCovered(a: seq<string>, b: seq<string>)
    ensures LoadList(a + b) <= LoadList(a) + LoadList(b)
  {
    var ab := a + b;
    forall x | x in LoadList(ab) ensures x in LoadList(a) + LoadList(b) {
      var i :| 0 <= i < |ab| && !IsCommentLine(ab[i]) && PyText.Strip(ab[i]) == x;
      if i < |a| {
        assert ab[i] == a[i];
      } else {
        assert ab[i] == b[i - |a|];
      }
    }
  }

  /** Every entry of either piece is an entry of the whole file. */
  lemma LoadListConcatKeeps(a: seq<string>, b: seq<string>)
    ensures LoadList(a) + LoadList(b) <= LoadList(a + b)
  {
    var ab := a + b;
    forall x | x in LoadList(a) ensures x in LoadList(ab) {
      var i :| 0 <= i < |a| && !IsCommentLine(a[i]) && PyText.Strip(a[i]) == x;
      assert ab[i] == a[i];
    }
    forall x | x in LoadList(b) ensures x in LoadList(ab) {
      var i :| 0 <= i < |b| && !IsCommentLine(b[i]) && PyText.Strip(b[i]) == x;
      assert ab[|a| + i] == b[i];
    }
  }

  /** Swapping two parts of a file does not change the loaded set. */
  lemma LoadListOrderFree(a: seq<string>, b: seq<string>)
    ensures LoadList(a + b) == LoadList(b + a)
  {
    LoadListConcat(a, b);
    LoadListConcat(b, a);
  }

  /** Comment lines never contribute, wherever they stand. */
  lemma CommentLineIgnored(lines: seq<string>, k: nat)
    requires k < |lines| && IsCommentLine(lines[k])
    ensures LoadList(lines) == LoadList(lines[..k] + lines[k + 1..])
  {
    var rest := lines[..k] + lines[k + 1..];
    assert forall j :: 0 <= j < k ==> rest[j] == lines[j];
    assert forall j :: k <= j < |rest| ==> rest[j] == lines[j + 1];
    forall x ensures x in LoadList(lines) <==> x in LoadList(rest) {
      LoadListMembers(lines, x);
      LoadListMembers(rest, x);
      if x in LoadList(lines) {
        var i :| 0 <= i < |lines| && KeptAs(lines[i], x);
        if i < k {
          assert KeptAs(rest[i], x);
        } else {
          assert i != k;
          assert KeptAs(rest[i - 1], x);
        }
      }
      if x in LoadList(rest) {
        var i :| 0 <= i < |rest| && KeptAs(rest[i], x);
        if i < k {
          assert KeptAs(lines[i], x);
        } else {
          assert KeptAs(lines[i + 1], x);
        }
      }
    }
  }

  /** An indented `#` line is not a comment: it is kept, stripped. */
  lemma IndentedHashLineKept(indent: string, entry: string)
    requires indent != [] && PyText.AllSpace(indent)
    requires entry == [] || !PyText.IsSpace(entry[|entry| - 1])
    ensures "#" + entry in LoadList([indent + "#" + entry + "\n"])
  {
    var line := indent + "#" + entry + "\n";
    assert line == indent + ("#" + entry) + "\n";
    PyText.StripSurrounded(indent, "#" + entry, "\n");
    assert !IsCommentLine(line);
    assert [line][0] == line;
  }

  /** A blank line is kept, as the empty string. */
  lemma BlankLineKept(blank: string)
    requires PyText.AllSpace(blank)
    ensures "" in LoadList([blank])
  {
    assert PyText.TrimStart(blank) == [];
    if blank != [] {
      assert !IsCommentLine(blank);
    }
    assert [blank][0] == blank;
  }

  /** A list file whose entries are canonical node ids, one per line with a
      newline, loads exactly those ids. */
  lemma {:induction false} CanonicalLinesLoad(ids: seq<string>)
    requires forall k :: 0 <= k < |ids| ==> |ids[k]| > 0 && ids[k][0] == '!' && PyText.NoSpace(ids[k])
    ensures LoadList(seq(|ids|, k requires 0 <= k < |ids| => ids[k] + "\n")) == set k | 0 <= k < |ids| :: ids[k]
  {
    var lines := seq(|ids|, k requires 0 <= k < |ids| => ids[k] + "\n");
    forall k | 0 <= k < |ids| ensures !IsCommentLine(lines[k]) && PyText.Strip(lines[k]) == ids[k] {
      StripTrailingNewline(ids[k]);
    }
    var r := LoadList(lines);
    forall x | x in r ensures x in set k | 0 <= k < |ids| :: ids[k] {
      var i :| 0 <= i < |lines| && !IsCommentLine(lines[i]) && PyText.Strip(lines[i]) == x;
    }
    forall k | 0 <= k < |ids| ensures ids[k] in r {
      assert !IsCommentLine(lines[k]) && PyText.Strip(lines[k]) == ids[k];
    }
  }

  lemma StripTrailingNewline(s: string)
    requires PyText.NoSpace(s)
    ensures PyText.Strip(s + "\n") == s
  {
    var line := s + "\n";
    if s == [] {
      assert PyText.Strip(line) == "";
    } else {
      assert PyText.TrimStart(line) == line by {
        assert !PyText.IsSpace(line[0]);
      }
      assert line[..|line| - 1] == s;
      assert PyText.TrimEnd(line) == PyText.TrimEnd(s);
      PyText.StripNoSpace(s);
      assert PyText.TrimStart(s) == s by {
        assert !PyText.IsSpace(s[0]);
      }
    }
  }
}
