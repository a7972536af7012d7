/**
  The formatter's settings (`Option`). The constructor normalises its
  arguments once; nothing changes them afterwards, so an option is a value.
 */
module Options {

  const DefaultIndent := 4
  /** The separator the patch pass writes; not configurable. */
  const DefaultSeparator := ","

  datatype Option = Option(
    indent: int,
    patchRequired: bool,
    patchSeparator: bool,
    keepComment: bool,
    alignByAssign: bool,
    alignByField: bool)

  /** What every constructed option satisfies: a positive indent and at most
      one alignment mode. */
  predicate Normalised(o: Option) {
    o.indent > 0 && !(o.alignByAssign && o.alignByField)
  }

  /** The six-argument constructor: a non-positive indent falls back to the
      default, and assign alignment wins over field alignment. */
  function NewOption(indent: int, patchRequired: bool, patchSeparator: bool, keepComment: bool,
                     alignByAssign: bool, alignByField: bool): (o: Option)
    ensures Normalised(o)
    ensures indent > 0 ==> o.indent == indent
    ensures indent <= 0 ==> o.indent == DefaultIndent
    ensures o.alignByAssign == alignByAssign
    ensures o.alignByField <==> alignByField && !alignByAssign
    ensures o.patchRequired == patchRequired && o.patchSeparator == patchSeparator
    ensures o.keepComment == keepComment
  {
    Option(if indent > 0 then indent else DefaultIndent,
           patchRequired, patchSeparator, keepComment,
           alignByAssign, !alignByAssign && alignByField)
  }

  /** The no-argument constructor. */
  function DefaultOption(): (o: Option)
    ensures o == NewOption(DefaultIndent, true, true, true, true, false)
  {
    NewOption(DefaultIndent, true, true, true, true, false)
  }

  /** The defaults: indent 4, both patches, comments kept, assign alignment. */
  lemma DefaultOptionValues()
    ensures DefaultOption() == Option(4, true, true, true, true, false)
  {
  }

  /** Constructing from an already normalised option's fields gives it back,
      so normalisation is idempotent. */
  lemma NewOptionKeepsNormalised(o: Option)
    requires Normalised(o)
    ensures NewOption(o.indent, o.patchRequired, o.patchSeparator, o.keepComment,
                      o.alignByAssign, o.alignByField) == o
  {
  }

  /** Any settings, once constructed, are reproduced by constructing again. */
  lemma NewOptionIdempotent(indent: int, patchRequired: bool, patchSeparator: bool, keepComment: bool,
                            alignByAssign: bool, alignByField: bool)
    ensures var o := NewOption(indent, patchRequired, patchSeparator, keepComment, alignByAssign, alignByField);
            NewOption(o.indent, o.patchRequired, o.patchSeparator, o.keepComment,
                      o.alignByAssign, o.alignByField) == o
  {
    var o := NewOption(indent, patchRequired, patchSeparator, keepComment, alignByAssign, alignByField);
    NewOptionKeepsNormalised(o);
  }
}
