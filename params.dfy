/** The optional keywords of `fix heat/gran/radiation`, parsed by the fix's
    constructor (fix_heat_gran_radiation.cpp, lines 88-136).  The first five
    words of the command (`fix ID group style initial_temperature T`) belong to
    the base class; keyword parsing starts at word 5. */
module FixParams {
  import opened Wrappers

  /** How the conduction contact area of a touching pair is obtained. */
  datatype AreaMode = Overlap | Constant | Projection

  /** What the constructor leaves in the fix's fields. */
  datatype Config = Config(mode: AreaMode, fixedArea: real, areaCorrection: bool, storeContactData: bool)

  /** The field values before any keyword is read (the member initialisers). */
  const DefaultConfig := Config(Overlap, 0.0, false, false)

  /** Index of the first keyword word (`iarg_ = 5`). */
  const FirstKeyword: nat := 5

  /** The style name for which an unrecognised keyword is fatal. */
  const ConductionStyle := "heat/gran/conduction"

  datatype ParseError =
    | NotEnoughArgs(keyword: string)
    | NotANumber(word: string)           // `force->numeric` rejects the word
    | NonPositiveArea
    | BadAreaMode                        // neither overlap, projection nor constant
    | BadYesNo(keyword: string)
    | UnknownKeyword
    | CorrectionNeedsOverlap
    | UndefinedRead(index: nat)          // the code reads arg[index] with index == narg

  /** The parser's result: the configuration and the final cursor `iarg_`. */
  datatype Parsed = Parsed(cfg: Config, iarg: nat)

  /** One turn of the constructor's `while` loop. */
  datatype Step = Next(cfg: Config, iarg: nat) | Done | Stop(err: ParseError)

  predicate IsKeyword(w: string) {
    w == "contact_area" || w == "area_correction" || w == "store_contact_data"
  }

  /** Whether the words at `iarg` are `contact_area constant ...`. */
  predicate ConstantAt(arg: seq<string>, iarg: nat) {
    iarg + 1 < |arg| && arg[iarg] == "contact_area" && arg[iarg + 1] == "constant"
  }

  /** One loop turn at cursor `iarg`.  `guarded` selects whether `contact_area`
      checks that a value follows it: the code as written does not (it reads
      `arg[iarg_+1]` unconditionally, modelled as UndefinedRead when that is
      `arg[narg]`); the corrected parser reports NotEnoughArgs like the other
      two keywords do. */
  function KeywordStep(arg: seq<string>, iarg: nat, cfg: Config, style: string,
                       numeric: string -> Option<real>, guarded: bool): (r: Step)
    requires iarg < |arg|
    ensures r.Next? ==> iarg < r.iarg <= |arg|
  {
    var narg := |arg|;
    if arg[iarg] == "contact_area" then
      if iarg + 2 > narg then
        if guarded then Stop(NotEnoughArgs("contact_area")) else Stop(UndefinedRead(narg))
      else if arg[iarg + 1] == "overlap" then Next(cfg.(mode := Overlap), iarg + 2)
      else if arg[iarg + 1] == "projection" then Next(cfg.(mode := Projection), iarg + 2)
      else if arg[iarg + 1] == "constant" then
        if iarg + 3 > narg then Stop(NotEnoughArgs("contact_area constant"))
        else
          match numeric(arg[iarg + 2])
          case None => Stop(NotANumber(arg[iarg + 2]))
          case Some(v) =>
            if v <= 0.0 then Stop(NonPositiveArea)
            else Next(cfg.(mode := Constant, fixedArea := v), iarg + 3)
      else Stop(BadAreaMode)
    else if arg[iarg] == "area_correction" then
      if iarg + 2 > narg then Stop(NotEnoughArgs("area_correction"))
      else if arg[iarg + 1] == "yes" then Next(cfg.(areaCorrection := true), iarg + 2)
      else if arg[iarg + 1] == "no" then Next(cfg.(areaCorrection := false), iarg + 2)
      else Stop(BadYesNo("area_correction"))
    else if arg[iarg] == "store_contact_data" then
      if iarg + 2 > narg then Stop(NotEnoughArgs("store_contact_data"))
      else if arg[iarg + 1] == "yes" then Next(cfg.(storeContactData := true), iarg + 2)
      else if arg[iarg + 1] == "no" then Next(cfg.(storeContactData := false), iarg + 2)
      else Stop(BadYesNo("store_contact_data"))
    else if style == ConductionStyle then Stop(UnknownKeyword)
    else Done
  }

  /** The check after the loop: area correction only with the overlap model. */
  function Finish(cfg: Config, iarg: nat): (r: Result<Parsed, ParseError>)
    ensures r.Success? <==> !(cfg.mode != Overlap && cfg.areaCorrection)
    ensures r.Success? ==> r.value == Parsed(cfg, iarg)
  {
    if cfg.mode != Overlap && cfg.areaCorrection then Failure(CorrectionNeedsOverlap)
    else Success(Parsed(cfg, iarg))
  }

  /** The loop from cursor `iarg` onwards, then the final check.  The only
      word ever read past the end is `arg[narg]`, and only when the last word
      is `contact_area`. */
  function ParseFrom(arg: seq<string>, iarg: nat, cfg: Config, style: string,
                     numeric: string -> Option<real>, guarded: bool): (r: Result<Parsed, ParseError>)
    ensures r.Failure? && r.error.UndefinedRead? ==>
              r.error.index == |arg| && |arg| > 0 && arg[|arg| - 1] == "contact_area"
    decreases |arg| - iarg
  {
    if iarg >= |arg| then Finish(cfg, iarg)
    else
      match KeywordStep(arg, iarg, cfg, style, numeric, guarded)
      case Next(c, k) => ParseFrom(arg, k, c, style, numeric, guarded)
      case Done => Finish(cfg, iarg)
      case Stop(e) => Failure(e)
  }

  /** A configuration the constructor can leave behind: a constant area is
      positive and area correction comes only with the overlap model. */
  predicate Consistent(cfg: Config) {
    (cfg.mode == Constant ==> cfg.fixedArea > 0.0) && (cfg.areaCorrection ==> cfg.mode == Overlap)
  }

  /** The constructor's keyword handling as written: it accepts only
      consistent configurations, and it reads past the end of the words only
      as `arg[narg]` after a final `contact_area`. */
  function ParseKeywordsAsWritten(arg: seq<string>, style: string, numeric: string -> Option<real>)
    : (r: Result<Parsed, ParseError>)
    ensures r.Success? ==> Consistent(r.value.cfg)
    ensures r.Failure? && r.error.UndefinedRead? ==>
              r.error.index == |arg| && |arg| > 0 && arg[|arg| - 1] == "contact_area"
  {
    ParsedConfigConsistent(arg, FirstKeyword, DefaultConfig, style, numeric, false);
    ParseFrom(arg, FirstKeyword, DefaultConfig, style, numeric, false)
  }

  /** The constructor's keyword handling with the missing arity check on
      `contact_area` added: it accepts only consistent configurations and
      never reads past the last word. */
  function ParseKeywords(arg: seq<string>, style: string, numeric: string -> Option<real>)
    : (r: Result<Parsed, ParseError>)
    ensures r.Success? ==> Consistent(r.value.cfg)
    ensures r.Failure? ==> !r.error.UndefinedRead?
  {
    ParsedConfigConsistent(arg, FirstKeyword, DefaultConfig, style, numeric, true);
    GuardedParseReadsInBounds(arg, FirstKeyword, DefaultConfig, style, numeric);
    ParseFrom(arg, FirstKeyword, DefaultConfig, style, numeric, true)
  }

  /** The constructor's loop: walks `arg` with the cursor `iarg` and stops at
      the end of the words, at a word that is no keyword, or at an error. */
  method ParseArgs(arg: seq<string>, style: string, numeric: string -> Option<real>)
    returns (r: Result<Parsed, ParseError>)
    ensures r == ParseKeywords(arg, style, numeric)
  {
    var narg := |arg|;
    var iarg := FirstKeyword;
    var cfg := DefaultConfig;
    var hasargs := true;
    while iarg < narg && hasargs
      invariant hasargs ==> ParseFrom(arg, iarg, cfg, style, numeric, true) == ParseKeywords(arg, style, numeric)
      invariant !hasargs ==> iarg < narg && Finish(cfg, iarg) == ParseKeywords(arg, style, numeric)
      decreases narg - iarg, hasargs
    {
      hasargs := false;
      if arg[iarg] == "contact_area" {
        if iarg + 2 > narg {
          return Failure(NotEnoughArgs("contact_area"));
        }
        if arg[iarg + 1] == "overlap" {
          cfg := cfg.(mode := Overlap);
        } else if arg[iarg + 1] == "projection" {
          cfg := cfg.(mode := Projection);
        } else if arg[iarg + 1] == "constant" {
          if iarg + 3 > narg {
            return Failure(NotEnoughArgs("contact_area constant"));
          }
          var v := numeric(arg[iarg + 2]);
          if v.None? {
            return Failure(NotANumber(arg[iarg + 2]));
          }
          cfg := cfg.(mode := Constant, fixedArea := v.value);
          if cfg.fixedArea <= 0.0 {
            return Failure(NonPositiveArea);
          }
          iarg := iarg + 1;
        } else {
          return Failure(BadAreaMode);
        }
        iarg := iarg + 2;
        hasargs := true;
      } else if arg[iarg] == "area_correction" {
        if iarg + 2 > narg {
          return Failure(NotEnoughArgs("area_correction"));
        }
        if arg[iarg + 1] == "yes" {
          cfg := cfg.(areaCorrection := true);
        } else if arg[iarg + 1] == "no" {
          cfg := cfg.(areaCorrection := false);
        } else {
          return Failure(BadYesNo("area_correction"));
        }
        iarg := iarg + 2;
        hasargs := true;
      } else if arg[iarg] == "store_contact_data" {
        if iarg + 2 > narg {
          return Failure(NotEnoughArgs("store_contact_data"));
        }
        if arg[iarg + 1] == "yes" {
          cfg := cfg.(storeContactData := true);
        } else if arg[iarg + 1] == "no" {
          cfg := cfg.(storeContactData := false);
        } else {
          return Failure(BadYesNo("store_contact_data"));
        }
        iarg := iarg + 2;
        hasargs := true;
      } else if style == ConductionStyle {
        return Failure(UnknownKeyword);
      }
    }
    if cfg.mode != Overlap && cfg.areaCorrection {
      return Failure(CorrectionNeedsOverlap);
    }
    r := Success(Parsed(cfg, iarg));
  }

  /** A keyword that is accepted moves the cursor past itself and its value:
      two words, or three for `contact_area constant <value>`. */
  lemma StepAdvance(arg: seq<string>, iarg: nat, cfg: Config, style: string,
                    numeric: string -> Option<real>, guarded: bool)
    requires iarg < |arg|
    ensures var r := KeywordStep(arg, iarg, cfg, style, numeric, guarded);
      r.Next? ==> IsKeyword(arg[iarg]) && r.iarg == iarg + (if ConstantAt(arg, iarg) then 3 else 2)
  {
  }

  /** Every well-formed keyword is accepted and sets exactly its own field:
      `contact_area overlap|projection` the mode, `contact_area constant v`
      (v > 0) the mode and the fixed area, `area_correction yes|no` and
      `store_contact_data yes|no` their flag; every other field is kept. */
  lemma StepAccepts(arg: seq<string>, iarg: nat, cfg: Config, style: string,
                    numeric: string -> Option<real>, guarded: bool)
    requires iarg + 1 < |arg|
    ensures var r := KeywordStep(arg, iarg, cfg, style, numeric, guarded);
      var w := arg[iarg + 1];
      && (arg[iarg] == "contact_area" && w == "overlap" ==> r == Next(cfg.(mode := Overlap), iarg + 2))
      && (arg[iarg] == "contact_area" && w == "projection" ==> r == Next(cfg.(mode := Projection), iarg + 2))
      && ((ConstantAt(arg, iarg) && iarg + 2 < |arg| && numeric(arg[iarg + 2]).Some?
           && numeric(arg[iarg + 2]).value > 0.0)
          ==> r == Next(cfg.(mode := Constant, fixedArea := numeric(arg[iarg + 2]).value), iarg + 3))
      && (arg[iarg] == "area_correction" && w == "yes" ==> r == Next(cfg.(areaCorrection := true), iarg + 2))
      && (arg[iarg] == "area_correction" && w == "no" ==> r == Next(cfg.(areaCorrection := false), iarg + 2))
      && (arg[iarg] == "store_contact_data" && w == "yes" ==> r == Next(cfg.(storeContactData := true), iarg + 2))
      && (arg[iarg] == "store_contact_data" && w == "no" ==> r == Next(cfg.(storeContactData := false), iarg + 2))
  {
  }

  /** `contact_area projection` as the only keyword gives the default
      configuration with the projection model, the cursor past both words. */
  lemma ProjectionCommand(numeric: string -> Option<real>)
    ensures ParseKeywords(["hf", "all", "heat/gran/radiation", "initial_temperature", "300",
                           "contact_area", "projection"], "heat/gran/radiation", numeric)
            == Success(Parsed(DefaultConfig.(mode := Projection), 7))
  {
    var arg := ["hf", "all", "heat/gran/radiation", "initial_temperature", "300", "contact_area", "projection"];
    assert arg[5] == "contact_area" && arg[6] == "projection";
  }

  /** The constructor's fatal errors, one per malformed keyword. */
  lemma StepRejects(arg: seq<string>, iarg: nat, cfg: Config, style: string,
                    numeric: string -> Option<real>, guarded: bool)
    requires iarg < |arg|
    ensures var r := KeywordStep(arg, iarg, cfg, style, numeric, guarded);
      && (ConstantAt(arg, iarg) && iarg + 3 > |arg| ==> r == Stop(NotEnoughArgs("contact_area constant")))
      && ((ConstantAt(arg, iarg) && iarg + 3 <= |arg| && numeric(arg[iarg + 2]).Some?
           && numeric(arg[iarg + 2]).value <= 0.0) ==> r == Stop(NonPositiveArea))
      && ((arg[iarg] == "contact_area" && iarg + 1 < |arg|
           && arg[iarg + 1] !in {"overlap", "projection", "constant"}) ==> r == Stop(BadAreaMode))
      && ((arg[iarg] in {"area_correction", "store_contact_data"} && iarg + 1 < |arg|
           && arg[iarg + 1] !in {"yes", "no"}) ==> r == Stop(BadYesNo(arg[iarg])))
      && ((arg[iarg] in {"area_correction", "store_contact_data"} && iarg + 1 == |arg|)
           ==> r == Stop(NotEnoughArgs(arg[iarg])))
      && (!IsKeyword(arg[iarg]) ==> r == if style == ConductionStyle then Stop(UnknownKeyword) else Done)
  {
  }

  /** Every configuration the parser accepts is consistent: a constant area is
      positive and area correction comes only with the overlap model. */
  lemma {:induction false} ParsedConfigConsistent(arg: seq<string>, iarg: nat, cfg: Config, style: string,
                                                  numeric: string -> Option<real>, guarded: bool)
    requires cfg.mode == Constant ==> cfg.fixedArea > 0.0
    ensures var r := ParseFrom(arg, iarg, cfg, style, numeric, guarded);
      r.Success? ==> (r.value.cfg.mode == Constant ==> r.value.cfg.fixedArea > 0.0)
                     && (r.value.cfg.areaCorrection ==> r.value.cfg.mode == Overlap)
    decreases |arg| - iarg
  {
    if iarg < |arg| {
      var s := KeywordStep(arg, iarg, cfg, style, numeric, guarded);
      if s.Next? {
        ParsedConfigConsistent(arg, s.iarg, s.cfg, style, numeric, guarded);
      }
    }
  }

  /** A successful parse ends at the last word, or at a word that is no
      keyword; the latter only for a style other than heat/gran/conduction. */
  lemma {:induction false} ParseStopsAtEndOrUnknown(arg: seq<string>, iarg: nat, cfg: Config, style: string,
                                                    numeric: string -> Option<real>, guarded: bool)
    ensures var r := ParseFrom(arg, iarg, cfg, style, numeric, guarded);
      r.Success? ==> iarg <= r.value.iarg
                     && (r.value.iarg >= |arg|
                         || (!IsKeyword(arg[r.value.iarg]) && style != ConductionStyle))
    decreases |arg| - iarg
  {
    if iarg < |arg| {
      var s := KeywordStep(arg, iarg, cfg, style, numeric, guarded);
      if s.Next? {
        ParseStopsAtEndOrUnknown(arg, s.iarg, s.cfg, style, numeric, guarded);
      }
    }
  }

  /** With the arity check on `contact_area`, no word beyond the last one is
      ever read. */
  lemma {:induction false} GuardedParseReadsInBounds(arg: seq<string>, iarg: nat, cfg: Config, style: string,
                                                     numeric: string -> Option<real>)
    ensures !ParseFrom(arg, iarg, cfg, style, numeric, true).Failure?
            || !ParseFrom(arg, iarg, cfg, style, numeric, true).error.UndefinedRead?
    decreases |arg| - iarg
  {
    if iarg < |arg| {
      var s := KeywordStep(arg, iarg, cfg, style, numeric, true);
      if s.Next? {
        GuardedParseReadsInBounds(arg, s.iarg, s.cfg, style, numeric);
      }
    }
  }

  /** The arity check changes nothing but the undefined read: wherever the code
      as written does not read past the last word, both parsers agree. */
  lemma {:induction false} GuardOnlyRemovesUndefinedRead(arg: seq<string>, iarg: nat, cfg: Config, style: string,
                                                         numeric: string -> Option<real>)
    ensures var w := ParseFrom(arg, iarg, cfg, style, numeric, false);
      (w.Failure? && w.error.UndefinedRead?)
        ==> ParseFrom(arg, iarg, cfg, style, numeric, true) == Failure(NotEnoughArgs("contact_area"))
    ensures var w := ParseFrom(arg, iarg, cfg, style, numeric, false);
      !(w.Failure? && w.error.UndefinedRead?) ==> ParseFrom(arg, iarg, cfg, style, numeric, true) == w
    decreases |arg| - iarg
  {
    if iarg < |arg| {
      var s := KeywordStep(arg, iarg, cfg, style, numeric, false);
      if s.Next? {
        GuardOnlyRemovesUndefinedRead(arg, s.iarg, s.cfg, style, numeric);
      }
    }
  }

  /** `contact_area` as the last word: the code as written reads `arg[narg]`,
      the corrected parser reports the missing value. */
  lemma ContactAreaLastWordReadsPastEnd(numeric: string -> Option<real>)
    ensures var arg := ["hf", "all", "heat/gran/radiation", "initial_temperature", "300", "contact_area"];
      && ParseKeywordsAsWritten(arg, "heat/gran/radiation", numeric) == Failure(UndefinedRead(6))
      && ParseKeywords(arg, "heat/gran/radiation", numeric) == Failure(NotEnoughArgs("contact_area"))
  {
    var arg := ["hf", "all", "heat/gran/radiation", "initial_temperature", "300", "contact_area"];
    assert arg[5] == "contact_area";
  }
}
