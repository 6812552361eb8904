/** The word-library registry `st.session_state['word_libraries']`: a dict
    from library name to its words and default colour, filled from uploaded
    spreadsheets and manual entries, emptied by the clear button, and
    projected onto the selected names to give `final_configs`. */
module Registry {
  import opened Outcomes
  import opened PyDict
  import Colour
  import WordList

  /** One registry entry: `{'words': [...], 'default_color': '#......'}`. */
  datatype Library = Library(words: seq<string>, defaultColour: string)

  type Libraries = Dict<Library>

  /** The two scripts differ in how a spreadsheet upload is admitted. */
  datatype Script = App | QuickApp

  /** An uploaded spreadsheet: its file name and the first column as
      strings, or `None` when reading it raised. */
  datatype Upload = Upload(name: string, read: Option<seq<string>>)

  /** One entry of `final_configs`: the library's words and the chosen colour
      as converted by `hex_to_rgb`. */
  datatype LibConfig = LibConfig(words: seq<string>, rgb: Colour.Rgb)

  /** The registry is a well-formed dict whose default colours are only ever
      the two the scripts write. */
  predicate Valid(reg: Libraries) {
    && PyDict.Valid(reg)
    && forall k :: k in reg.entries ==>
         reg.entries[k].defaultColour == Colour.Yellow || reg.entries[k].defaultColour == Colour.Green
  }

  /** The registry at session start and after the clear button. */
  function Cleared(): (reg: Libraries)
    ensures Valid(reg)
    ensures |reg.entries| == 0 && reg.keys == []
  {
    Empty()
  }

  /** QuickApp's `load_excel_data`: a read that raised yields `[]`, so an
      empty result cannot tell a failed read from an empty first column. */
  function LoadExcelData(read: Option<seq<string>>): (words: seq<string>)
    ensures words == [] <==> read == None || read == Some([])
    ensures words != [] ==> read == Some(words)
  {
    match read
    case Some(words) => words
    case None => []
  }

  /** The word list a script stores for an upload whose name is not yet
      registered, or `None` when it stores nothing: App stores every list it
      could read, even an empty one; QuickApp stores only a non-empty list. */
  function Admitted(script: Script, read: Option<seq<string>>): (a: Option<seq<string>>)
    ensures script == App ==> a == read
    ensures script == QuickApp ==> (a.Some? <==> read.Some? && read.value != [])
    ensures a.Some? ==> read == Some(a.value)
  {
    match script
    case App => read
    case QuickApp =>
      var words := LoadExcelData(read);
      if words != [] then Some(words) else None
  }

  /** One pass of the upload loop for one file: first write wins. */
  function ImportUpload(script: Script, reg: Libraries, u: Upload): (r: Libraries)
    requires Valid(reg)
    ensures Valid(r)
    ensures u.name in reg.entries ==> r == reg
    ensures Admitted(script, u.read).None? ==> r == reg
    ensures u.name !in reg.entries && Admitted(script, u.read).Some? ==>
              && r.keys == reg.keys + [u.name]
              && r.entries == reg.entries[u.name := Library(Admitted(script, u.read).value, Colour.Yellow)]
  {
    if u.name in reg.entries then reg
    else
      match Admitted(script, u.read)
      case None => reg
      case Some(words) => Put(reg, u.name, Library(words, Colour.Yellow))
  }

  /** The upload loop over every file of one upload widget. An entry already
      present is never changed, and present names keep their place. */
  function ImportUploads(script: Script, reg: Libraries, us: seq<Upload>): (r: Libraries)
    requires Valid(reg)
    ensures Valid(r)
    ensures forall k :: k in reg.entries ==> k in r.entries && r.entries[k] == reg.entries[k]
    ensures reg.keys <= r.keys
    decreases |us|
  {
    if |us| == 0 then reg else ImportUploads(script, ImportUpload(script, reg, us[0]), us[1..])
  }

  /** Reference definition: the words of the first upload of that name that
      the script admits. */
  function FirstAdmitted(script: Script, us: seq<Upload>, name: string): Option<seq<string>>
    decreases |us|
  {
    if |us| == 0 then None
    else if us[0].name == name && Admitted(script, us[0].read).Some? then Admitted(script, us[0].read)
    else FirstAdmitted(script, us[1..], name)
  }

  /** First write wins across a batch: a name that was not registered ends up
      registered exactly when some upload of that name is admitted, with the
      words of the first such upload and the yellow default. */
  lemma {:induction false} ImportUploadsFirstWins(script: Script, reg: Libraries, us: seq<Upload>, name: string)
    requires Valid(reg)
    requires name !in reg.entries
    ensures var r := ImportUploads(script, reg, us);
            && (name in r.entries <==> FirstAdmitted(script, us, name).Some?)
            && (name in r.entries ==> r.entries[name] == Library(FirstAdmitted(script, us, name).value, Colour.Yellow))
    decreases |us|
  {
    if |us| > 0 {
      var next := ImportUpload(script, reg, us[0]);
      if us[0].name == name && Admitted(script, us[0].read).Some? {
        assert name in next.entries;
      } else {
        assert name !in next.entries;
        ImportUploadsFirstWins(script, next, us[1..], name);
      }
    }
  }

  /** The position in `us` of the first upload of `name` that the script
      admits, or `|us|` when there is none. */
  function FirstAdmittedAt(script: Script, us: seq<Upload>, name: string): (p: nat)
    ensures p <= |us|
    ensures p < |us| <==> FirstAdmitted(script, us, name).Some?
    ensures p < |us| ==> us[p].name == name && Admitted(script, us[p].read) == FirstAdmitted(script, us, name)
    decreases |us|
  {
    if |us| == 0 then 0
    else if us[0].name == name && Admitted(script, us[0].read).Some? then 0
    else 1 + FirstAdmittedAt(script, us[1..], name)
  }

  /** Every name in `added` has an admitted upload, and the names are in the
      order of their first admitted uploads. */
  predicate InAdmissionOrder(script: Script, us: seq<Upload>, added: seq<string>) {
    && (forall p :: 0 <= p < |added| ==> FirstAdmittedAt(script, us, added[p]) < |us|)
    && (forall p, q :: 0 <= p < q < |added| ==>
          FirstAdmittedAt(script, us, added[p]) < FirstAdmittedAt(script, us, added[q]))
  }

  /** A batch only appends: the names after the old ones are new, and they
      come in the order in which their first admitted uploads came. */
  lemma {:induction false} ImportUploadsAppendsInOrder(script: Script, reg: Libraries, us: seq<Upload>)
    requires Valid(reg)
    ensures var added := ImportUploads(script, reg, us).keys[|reg.keys|..];
            && (forall p :: 0 <= p < |added| ==> added[p] !in reg.entries)
            && InAdmissionOrder(script, us, added)
    decreases |us|
  {
    if |us| == 0 {
      assert ImportUploads(script, reg, us).keys[|reg.keys|..] == [];
    } else {
      var next := ImportUpload(script, reg, us[0]);
      var r := ImportUploads(script, next, us[1..]);
      assert r == ImportUploads(script, reg, us);
      ImportUploadsAppendsInOrder(script, next, us[1..]);
      AppendStep(script, us, reg.keys, reg.entries, next.keys, next.entries, r.keys);
    }
  }

  /** One upload in front of a batch: the names it adds, if any, come
      first, then the names the rest of the batch adds. */
  lemma AppendStep(script: Script, us: seq<Upload>, priorKeys: seq<string>, prior: map<string, Library>,
                   midKeys: seq<string>, mid: map<string, Library>, newKeys: seq<string>)
    requires |us| > 0
    requires midKeys <= newKeys
    requires || midKeys == priorKeys
             || (midKeys == priorKeys + [us[0].name] && us[0].name !in prior && Admitted(script, us[0].read).Some?)
    requires forall k :: k in prior ==> k in mid
    requires us[0].name in mid || Admitted(script, us[0].read).None?
    requires forall p :: 0 <= p < |newKeys[|midKeys|..]| ==> newKeys[|midKeys|..][p] !in mid
    requires InAdmissionOrder(script, us[1..], newKeys[|midKeys|..])
    ensures var added := newKeys[|priorKeys|..];
            && (forall p :: 0 <= p < |added| ==> added[p] !in prior)
            && InAdmissionOrder(script, us, added)
  {
    var later := newKeys[|midKeys|..];
    OrderShifts(script, us, later, mid);
    if midKeys != priorKeys {
      assert newKeys[|priorKeys|] == midKeys[|priorKeys|];
      DropOne(newKeys, |priorKeys|);
      OrderCons(script, us, later);
    }
  }

  /** A suffix is its first element followed by the rest. */
  lemma DropOne(s: seq<string>, i: nat)
    requires i < |s|
    ensures s[i..] == [s[i]] + s[i + 1..]
  {
    assert s[i..][0] == s[i] && s[i..][1..] == s[i + 1..];
  }

  /** Names that the first upload did not admit keep their order when it is
      put in front of the rest of the batch. */
  lemma OrderShifts(script: Script, us: seq<Upload>, added: seq<string>, known: map<string, Library>)
    requires |us| > 0 && InAdmissionOrder(script, us[1..], added)
    requires us[0].name in known || Admitted(script, us[0].read).None?
    requires forall p :: 0 <= p < |added| ==> added[p] !in known
    ensures InAdmissionOrder(script, us, added)
  {
    forall p | 0 <= p < |added|
      ensures FirstAdmittedAt(script, us, added[p]) == 1 + FirstAdmittedAt(script, us[1..], added[p])
    {
      assert added[p] != us[0].name || Admitted(script, us[0].read).None?;
    }
  }

  /** The first upload's name, admitted at position 0, goes in front of the
      names admitted later. */
  lemma OrderCons(script: Script, us: seq<Upload>, added: seq<string>)
    requires |us| > 0 && Admitted(script, us[0].read).Some?
    requires InAdmissionOrder(script, us, added)
    requires forall p :: 0 <= p < |added| ==> added[p] != us[0].name
    ensures InAdmissionOrder(script, us, [us[0].name] + added)
  {
    var all := [us[0].name] + added;
    assert FirstAdmittedAt(script, us, us[0].name) == 0;
    assert forall p :: 0 <= p < |added| ==> FirstAdmittedAt(script, us, added[p]) > 0;
    forall p, q | 0 <= p < q < |all|
      ensures FirstAdmittedAt(script, us, all[p]) < FirstAdmittedAt(script, us, all[q])
    {
      assert all[q] == added[q - 1];
      if p > 0 {
        assert all[p] == added[p - 1];
      }
    }
  }

  /** The clear button empties the registry and calls `st.rerun()`, which
      runs the upload loop again over the files still in the uploader. The
      registry then holds exactly the names some remaining upload admits,
      each with the words of its first admitted upload, in that order. */
  lemma ClearThenReimport(script: Script, us: seq<Upload>, name: string)
    ensures var r := ImportUploads(script, Cleared(), us);
            && (name in r.entries <==> FirstAdmitted(script, us, name).Some?)
            && (name in r.entries ==> r.entries[name] == Library(FirstAdmitted(script, us, name).value, Colour.Yellow))
            && InAdmissionOrder(script, us, r.keys)
  {
    var r := ImportUploads(script, Cleared(), us);
    ImportUploadsFirstWins(script, Cleared(), us, name);
    ImportUploadsAppendsInOrder(script, Cleared(), us);
    assert r.keys[|Cleared().keys|..] == r.keys;
  }

  /** In QuickApp a spreadsheet that could not be read, or whose first column
      is empty, is never registered; App registers the empty one. */
  lemma EmptySpreadsheetAdmission(reg: Libraries, name: string)
    requires Valid(reg)
    requires name !in reg.entries
    ensures ImportUpload(QuickApp, reg, Upload(name, None)) == reg
    ensures ImportUpload(QuickApp, reg, Upload(name, Some([]))) == reg
    ensures ImportUpload(App, reg, Upload(name, None)) == reg
    ensures ImportUpload(App, reg, Upload(name, Some([]))).entries[name] == Library([], Colour.Yellow)
  {
  }

  /** The manual-add button: with a non-empty name and text, the name's entry
      is set (overwriting) to the parsed words and the green default;
      otherwise nothing happens. */
  function ManualAdd(reg: Libraries, name: string, text: string): (r: Libraries)
    requires Valid(reg)
    ensures Valid(r)
    ensures name == [] || text == [] ==> r == reg
    ensures name != [] && text != [] ==>
              name in r.entries && r.entries[name] == Library(WordList.ParseManualList(text), Colour.Green)
    ensures forall k :: k != name ==> (k in r.entries <==> k in reg.entries)
    ensures forall k :: k != name && k in reg.entries ==> r.entries[k] == reg.entries[k]
    ensures name in reg.entries ==> r.keys == reg.keys
    ensures name != [] && text != [] && name !in reg.entries ==> r.keys == reg.keys + [name]
  {
    if name != [] && text != [] then Put(reg, name, Library(WordList.ParseManualList(text), Colour.Green))
    else reg
  }

  /** Manual adds under one name: the last one wins. */
  lemma ManualAddLastWins(reg: Libraries, name: string, text1: string, text2: string)
    requires Valid(reg)
    requires name != [] && text1 != [] && text2 != []
    ensures ManualAdd(ManualAdd(reg, name, text1), name, text2) == ManualAdd(reg, name, text2)
  {
    PutPut(reg, name, Library(WordList.ParseManualList(text1), Colour.Green),
           Library(WordList.ParseManualList(text2), Colour.Green));
  }

  /** The manual path has no non-empty-list guard: a text that holds only a
      separator still registers the name, with no words. */
  lemma ManualSeparatorOnlyRegistersEmpty(reg: Libraries, name: string)
    requires Valid(reg)
    requires name != []
    ensures name in ManualAdd(reg, name, [',']).entries
    ensures ManualAdd(reg, name, [',']).entries[name].words == []
  {
    WordList.SeparatorOnly();
  }

  /** The colour the picker of a selected library reports: the user's pick
      if one was made, otherwise the library's default. */
  function PickedHex(reg: Libraries, picks: map<string, string>, name: string): (hex: string)
    requires name in reg.entries
    ensures name in picks ==> hex == picks[name]
    ensures name !in picks ==> hex == reg.entries[name].defaultColour
    ensures Valid(reg) && (forall m :: m in picks ==> Colour.IsPickerHex(picks[m])) ==> Colour.IsPickerHex(hex)
  {
    Colour.DefaultsArePickerHex();
    if name in picks then picks[name] else reg.entries[name].defaultColour
  }

  /** `final_configs`: for each selected name in selection order, the
      registry's words unchanged and the picked colour converted; the first
      colour that does not convert raises. `selected` comes from a
      multiselect over the registry's names, so it lists registered names,
      each at most once. */
  function BuildConfigs(reg: Libraries, selected: seq<string>, picks: map<string, string>): (r: Result<Dict<LibConfig>>)
    requires PyDict.Valid(reg)
    requires forall i :: 0 <= i < |selected| ==> selected[i] in reg.entries
    requires Distinct(selected)
    ensures r.Ok? ==> PyDict.Valid(r.value) && r.value.keys == selected
    ensures r.Ok? ==> forall n :: n in r.value.entries ==>
              && n in reg.entries
              && r.value.entries[n].words == reg.entries[n].words
              && Colour.HexToRgb(PickedHex(reg, picks, n)) == Ok(r.value.entries[n].rgb)
    decreases |selected|
  {
    if |selected| == 0 then Ok(Empty())
    else
      var init := selected[..|selected| - 1];
      var name := selected[|selected| - 1];
      assert selected == init + [name];
      assert forall i :: 0 <= i < |init| ==> selected[i] == init[i];
      match BuildConfigs(reg, init, picks)
      case ValueError(e) => ValueError(e)
      case Ok(prev) =>
        match Colour.HexToRgb(PickedHex(reg, picks, name))
        case ValueError(e) => ValueError(e)
        case Ok(rgb) =>
          assert name !in prev.entries by {
            assert forall i :: 0 <= i < |init| ==> init[i] != name;
          }
          var out := Put(prev, name, LibConfig(reg.entries[name].words, rgb));
          assert forall n :: n in out.entries ==>
                   && n in reg.entries
                   && out.entries[n].words == reg.entries[n].words
                   && Colour.HexToRgb(PickedHex(reg, picks, n)) == Ok(out.entries[n].rgb) by {
            forall n | n in out.entries
              ensures n in reg.entries
              ensures out.entries[n].words == reg.entries[n].words
              ensures Colour.HexToRgb(PickedHex(reg, picks, n)) == Ok(out.entries[n].rgb)
            {
              if n != name {
                assert n in prev.entries;
              }
            }
          }
          Ok(out)
  }

  /** `final_configs` is built exactly when every selected library's picked
      colour converts; otherwise the conversion error propagates. */
  lemma {:induction false} BuildConfigsOkIff(reg: Libraries, selected: seq<string>, picks: map<string, string>)
    requires PyDict.Valid(reg)
    requires forall i :: 0 <= i < |selected| ==> selected[i] in reg.entries
    requires Distinct(selected)
    ensures BuildConfigs(reg, selected, picks).Ok? <==>
              forall i :: 0 <= i < |selected| ==> Colour.HexToRgb(PickedHex(reg, picks, selected[i])).Ok?
    decreases |selected|
  {
    if |selected| > 0 {
      var init := selected[..|selected| - 1];
      assert forall i :: 0 <= i < |init| ==> selected[i] == init[i];
      assert Distinct(init);
      BuildConfigsOkIff(reg, init, picks);
    }
  }

  /** The colour shown in a picker converts to a byte triple, whether it is
      the user's pick or the library's default. */
  lemma PickedHexConverts(reg: Libraries, picks: map<string, string>, n: string)
    requires Valid(reg) && n in reg.entries
    requires forall m :: m in picks ==> Colour.IsPickerHex(picks[m])
    ensures Colour.HexToRgb(PickedHex(reg, picks, n)).Ok?
    ensures Colour.IsByteRgb(Colour.HexToRgb(PickedHex(reg, picks, n)).value)
  {
    if n in picks {
      Colour.PickerHexParses(picks[n]);
    } else if reg.entries[n].defaultColour == Colour.Yellow {
      Colour.YellowIsOneOneZero();
    } else {
      Colour.GreenIsZeroOneZero();
    }
  }

  /** With the registry's own defaults and colour-picker values, building
      the configuration cannot fail, and every channel lies in [0, 255]. */
  lemma PickerColoursBuild(reg: Libraries, selected: seq<string>, picks: map<string, string>)
    requires Valid(reg)
    requires forall i :: 0 <= i < |selected| ==> selected[i] in reg.entries
    requires Distinct(selected)
    requires forall n :: n in picks ==> Colour.IsPickerHex(picks[n])
    ensures BuildConfigs(reg, selected, picks).Ok?
    ensures forall n :: n in BuildConfigs(reg, selected, picks).value.entries ==>
              Colour.IsByteRgb(BuildConfigs(reg, selected, picks).value.entries[n].rgb)
  {
    forall i | 0 <= i < |selected|
      ensures Colour.HexToRgb(PickedHex(reg, picks, selected[i])).Ok?
    {
      PickedHexConverts(reg, picks, selected[i]);
    }
    BuildConfigsOkIff(reg, selected, picks);
    var built := BuildConfigs(reg, selected, picks).value;
    forall n | n in built.entries
      ensures Colour.IsByteRgb(built.entries[n].rgb)
    {
      PickedHexConverts(reg, picks, n);
    }
  }

  /** The first run after loading: the multiselect defaults to every
      registered name in registry order and no picker has been touched, so
      every library is configured, in that order, with its default colour:
      (1, 1, 0) for a spreadsheet, (0, 1, 0) for a manual entry. */
  lemma DefaultSelectionUsesDefaults(reg: Libraries)
    requires Valid(reg)
    ensures BuildConfigs(reg, reg.keys, map[]).Ok?
    ensures BuildConfigs(reg, reg.keys, map[]).value.keys == reg.keys
    ensures forall n :: n in BuildConfigs(reg, reg.keys, map[]).value.entries ==>
              BuildConfigs(reg, reg.keys, map[]).value.entries[n].rgb ==
                (if reg.entries[n].defaultColour == Colour.Yellow then Colour.Rgb(255, 255, 0) else Colour.Rgb(0, 255, 0))
  {
    PickerColoursBuild(reg, reg.keys, map[]);
    Colour.YellowIsOneOneZero();
    Colour.GreenIsZeroOneZero();
  }
}
