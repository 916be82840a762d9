/** How the spreadsheet export turns one admin column value into a cell
    (`_format_admin_value` in `core/admin.py`). The value's Python kind is
    made explicit as a tag; the branches are tried in the order the source
    tries them. Django's localized date formatting is a parameter that may
    fail (`None`), in which case the ISO 8601 text is written instead. */
module AdminFormat {
  import opened Wrappers
  import opened IsoFormat
  import Models

  /** What a spreadsheet cell receives: text or a number. */
  datatype Scalar = Text(s: string) | Number(n: int)

  /** A value `lookup_field` can produce for a column. `DateTimeValue` is
      any object with `tzinfo`, `year` and `month` (a `datetime`);
      `DateValue` has `year`, `month` and `day` but no `hour` (a `date`);
      `Plain` is anything else, passed to the cell unchanged. */
  datatype Value =
    | Null
    | Bool(b: bool)
    | ModelRef(obj: Models.Instance)
    | DateTimeValue(dt: DateTime)
    | DateValue(d: Date)
    | Plain(x: Scalar)

  /** The active locale's `DATETIME_FORMAT` and `DATE_FORMAT` renderings;
      `None` stands for a formatting call that raises. */
  datatype Locale = Locale(dateTimeFormat: DateTime -> Option<string>,
                           dateFormat: Date -> Option<string>)

  /** The words written for booleans. */
  const Yes: string := "Да"
  const No: string := "Нет"

  /** One admin value as a cell. A `None` becomes the empty text, a
      boolean one of two fixed words, a model instance its `__str__`, a
      date or datetime its localized text or, when that fails, ISO 8601
      text that reads back as the same date (the datetime to the second). */
  function FormatValue(v: Value, loc: Locale): (r: Scalar)
    ensures v.Null? ==> r == Text("")
    ensures v.Bool? ==> r.Text? && (r.s == Yes || r.s == No) && (r.s == Yes <==> v.b)
    ensures v.ModelRef? ==> r == Text(Models.Display(v.obj))
    ensures v.DateTimeValue? ==> r.Text?
    ensures v.DateTimeValue? && loc.dateTimeFormat(v.dt).Some? ==> r.s == loc.dateTimeFormat(v.dt).value
    ensures v.DateTimeValue? && loc.dateTimeFormat(v.dt).None? ==>
              ParseIsoDateTime(r.s) == Some(v.dt.(microsecond := 0))
    ensures v.DateValue? ==> r.Text?
    ensures v.DateValue? && loc.dateFormat(v.d).Some? ==> r.s == loc.dateFormat(v.d).value
    ensures v.DateValue? && loc.dateFormat(v.d).None? ==> ParseIsoDate(r.s) == Some(v.d)
    ensures v.Plain? ==> r == v.x
  {
    match v
    case Null => Text("")
    case Bool(b) => Text(if b then Yes else No)
    case ModelRef(obj) => Text(Models.Display(obj))
    case DateTimeValue(dt) =>
      (match loc.dateTimeFormat(dt)
       case Some(s) => Text(s)
       case None =>
         ParseIsoDateTimeOfIsoDateTime(dt);
         Text(IsoDateTime(dt)))
    case DateValue(d) =>
      (match loc.dateFormat(d)
       case Some(s) => Text(s)
       case None =>
         ParseIsoDateOfIsoDate(d);
         Text(IsoDate(d)))
    case Plain(x) => x
  }
}
