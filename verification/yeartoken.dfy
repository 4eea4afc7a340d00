/** Year substitution in the S3 tiled branch of `ExtractTiledRaster`: the tile
    path and the output column name are templated on the year 2020, and a
    requested year is spliced in by plain `str.replace`. */
module YearToken {
  import opened Results
  import opened PyStr
  import opened PyInt

  const PathToken: string := "y2020"
  const ColumnToken: string := "tcc2020"

  /** The tile path used for a row: `s3_path.replace('y2020', 'y' + str(year))`
      when a year is given, the path itself otherwise. */
  function SubstitutePath(path: string, year: Option<int>): (p: string)
    ensures year.None? ==> p == path
    ensures year.Some? ==> p == Join(Split(path, PathToken), "y" + IntToString(year.value))
  {
    match year
    case None => path
    case Some(y) =>
      ReplaceIsJoinOfSplit(path, PathToken, "y" + IntToString(y));
      Replace(path, PathToken, "y" + IntToString(y))
  }

  /** The column name used once a row with a string path has been seen:
      `data_name.replace('tcc2020', 'tcc' + str(year))`. */
  function SubstituteColumn(name: string, year: Option<int>): (c: string)
    ensures year.None? ==> c == name
    ensures year.Some? ==> c == Join(Split(name, ColumnToken), "tcc" + IntToString(year.value))
  {
    match year
    case None => name
    case Some(y) =>
      ReplaceIsJoinOfSplit(name, ColumnToken, "tcc" + IntToString(y));
      Replace(name, ColumnToken, "tcc" + IntToString(y))
  }

  lemma TwentyTwenty()
    ensures IntToString(2020) == "2020"
  {
    assert NatDigits(2) == "2";
    assert NatDigits(20) == "20";
    assert NatDigits(202) == "202";
  }

  /** Asking for the template's own year leaves both the path and the
      column name exactly as they were. */
  lemma {:induction false} Year2020IsIdentity(path: string, name: string)
    ensures SubstitutePath(path, Some(2020)) == path
    ensures SubstituteColumn(name, Some(2020)) == name
  {
    TwentyTwenty();
    assert "y" + "2020" == PathToken;
    assert "tcc" + "2020" == ColumnToken;
    ReplaceBySelf(path, PathToken);
    ReplaceBySelf(name, ColumnToken);
  }

  /** A path or a name without the token is not affected by any year. */
  lemma {:induction false} NoTokenIsIdentity(path: string, name: string, year: Option<int>)
    ensures !Occurs(PathToken, path) ==> SubstitutePath(path, year) == path
    ensures !Occurs(ColumnToken, name) ==> SubstituteColumn(name, year) == name
  {
    if year.Some? {
      if !Occurs(PathToken, path) {
        ReplaceAbsent(path, PathToken, "y" + IntToString(year.value));
      }
      if !Occurs(ColumnToken, name) {
        ReplaceAbsent(name, ColumnToken, "tcc" + IntToString(year.value));
      }
    }
  }

  /** The token itself is rewritten to the requested year's token. */
  lemma {:induction false} TokenPathPerYear(year: int)
    ensures SubstitutePath(PathToken, Some(year)) == "y" + IntToString(year)
  {
    var rep := "y" + IntToString(year);
    assert PathToken <= PathToken;
    assert PathToken[|PathToken|..] == [];
    assert Replace([], PathToken, rep) == [];
  }

  /** Every occurrence of the token is replaced: the path is cut at its
      tokens into token-free pieces, which the substituted path joins back
      with `y<year>`; likewise for the column name and `tcc<year>`. */
  lemma {:induction false} EveryTokenReplaced(path: string, name: string, y: int)
    ensures
      var pieces := Split(path, PathToken);
      && Join(pieces, PathToken) == path
      && (forall k :: 0 <= k < |pieces| ==> !Occurs(PathToken, pieces[k]))
      && SubstitutePath(path, Some(y)) == Join(pieces, "y" + IntToString(y))
    ensures
      var pieces := Split(name, ColumnToken);
      && Join(pieces, ColumnToken) == name
      && (forall k :: 0 <= k < |pieces| ==> !Occurs(ColumnToken, pieces[k]))
      && SubstituteColumn(name, Some(y)) == Join(pieces, "tcc" + IntToString(y))
  {
    JoinSplit(path, PathToken);
    SplitPiecesAvoidSep(path, PathToken);
    JoinSplit(name, ColumnToken);
    SplitPiecesAvoidSep(name, ColumnToken);
  }
}
