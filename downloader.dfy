/** The `Downloader` object: its fields, the URL probe `check_url`, and the
    three download operations with the option sets they hand to the media
    extraction library.

    The library itself is not modelled: a probe is given the outcome of
    `extract_info` as `probe` (`None` when it raises), and every download
    call's outcome comes from a script `remote` (see module Retry). */
module Downloader {
  import opened Common
  import LangCodes
  import Retry

  /** The fields of the `extract_info` result that `check_url` reads: each is
      `None` when the key is absent. For the two caption dictionaries, only
      their keys (the language codes) matter here. */
  datatype Info = Info(
    title: Option<string>,
    duration: Option<int>,
    subtitles: Option<seq<string>>,
    automaticCaptions: Option<seq<string>>)

  /** The three messages of `check_url`. */
  datatype CheckMessage = Extracted | ExtractionFailed | BadScheme

  /** The metadata fields a probe sets. */
  datatype Metadata = Metadata(
    title: string,
    duration: int,
    subs: seq<string>,
    autos: seq<string>,
    langs: seq<string>,
    hasCc: bool)

  /** `outtmpl`: the output folder and file name (`os.path.join` is not modelled). */
  datatype Output = Output(folder: string, name: string)

  /** The option dictionaries, as far as their meaning is decided here: the
      format selectors and post-processors of the video and audio options
      are fixed strings owned by the library. */
  datatype Options =
    | VideoOptions(output: Output)
    | AudioOptions(output: Output)
    | CaptionOptions(output: Output, writeSubtitles: bool, writeAutomaticSub: bool, subtitlesLangs: seq<string>)

  /** One operation: the options it used, the URL handed to `download`, the
      retried download run, and the language given to speech recognition
      when that step was reached. */
  datatype Job = Job(options: Options, url: string, run: Retry.Run, whisperLanguage: Option<string>)

  const UnknownTitle := "Unknown Title"
  const PreferredOrder := ["pt", "en"]

  // ----- Pure pieces of check_url -----

  /** The case-sensitive scheme test of `check_url`. */
  predicate HasScheme(url: string) {
    StartsWith(url, "http://") || StartsWith(url, "https://")
  }

  /** The title with every `/` and every `\` replaced by `_`. */
  function Sanitize(title: string): (r: string)
    ensures |r| == |title|
    ensures '/' !in r && '\\' !in r
    ensures forall i :: 0 <= i < |title| ==>
              r[i] == if title[i] == '/' || title[i] == '\\' then '_' else title[i]
  {
    ReplaceChar(ReplaceChar(title, '/', '_'), '\\', '_')
  }

  /** The distinct keys of both caption dictionaries, as the set built from the two key lists,
      in first-occurrence order. */
  function KeyUnion(subs: seq<string>, autos: seq<string>): (r: seq<string>)
    ensures NoDup(r)
    ensures forall c :: c in r <==> c in subs || c in autos
  {
    Dedup(subs + autos)
  }

  /** The object invariant every probe keeps: `langs` is the duplicate-free
      union of the caption keys, `has_cc` says it is non-empty, and the title
      holds no path separator. */
  ghost predicate ValidMetadata(m: Metadata) {
    && NoDup(m.langs)
    && (forall c :: c in m.langs <==> c in m.subs || c in m.autos)
    && m.hasCc == (|m.langs| > 0)
    && '/' !in m.title && '\\' !in m.title
  }

  /** Whether `check_url` reports success. */
  predicate ProbeSucceeds(url: string, probe: Option<Info>) {
    HasScheme(url) && probe.Some?
  }

  function ProbeMessage(url: string, probe: Option<Info>): CheckMessage {
    if !HasScheme(url) then BadScheme
    else if probe.None? then ExtractionFailed
    else Extracted
  }

  /** The metadata after `check_url` on `url`, starting from `m`. */
  function Probed(url: string, probe: Option<Info>, m: Metadata): Metadata {
    if !ProbeSucceeds(url, probe) then m
    else
      var info := probe.value;
      var subs := info.subtitles.GetOr([]);
      var autos := info.automaticCaptions.GetOr([]);
      var langs := KeyUnion(subs, autos);
      Metadata(Sanitize(info.title.GetOr(UnknownTitle)), info.duration.GetOr(0), subs, autos, langs, |langs| > 0)
  }

  /** Every probe keeps the metadata invariant. */
  lemma ProbedValid(url: string, probe: Option<Info>, m: Metadata)
    requires ValidMetadata(m)
    ensures ValidMetadata(Probed(url, probe, m))
  {
  }

  /** A probe that fails, for want of a scheme or because extraction raised,
      changes nothing; one that succeeds sets a sanitised title ("Unknown
      Title" when there is none), `langs` as the union of the caption keys
      and `has_cc` iff some caption key exists. */
  lemma ProbedFacts(url: string, probe: Option<Info>, m: Metadata)
    ensures var r := Probed(url, probe, m);
      && (!ProbeSucceeds(url, probe) ==> r == m)
      && (ProbeSucceeds(url, probe) ==>
            && r.title == Sanitize(probe.value.title.GetOr(UnknownTitle))
            && (probe.value.title.None? ==> r.title == UnknownTitle)
            && r.subs == probe.value.subtitles.GetOr([])
            && r.autos == probe.value.automaticCaptions.GetOr([])
            && (forall c :: c in r.langs <==> c in r.subs || c in r.autos)
            && (r.hasCc <==> exists c :: c in r.subs || c in r.autos))
  {
    if ProbeSucceeds(url, probe) {
      var r := Probed(url, probe, m);
      assert UnknownTitle == "Unknown Title";
      assert forall i :: 0 <= i < |UnknownTitle| ==> UnknownTitle[i] != '/' && UnknownTitle[i] != '\\';
      if r.hasCc {
        assert r.langs[0] in r.subs || r.langs[0] in r.autos;
      }
    }
  }

  // ----- Pure pieces of the download operations -----

  /** The codes asked for on the caption path: the matcher's result for
      `['pt', 'en']`, or all of `langs` when it finds nothing. */
  function SelectedCodes(langs: seq<string>): seq<string> {
    var m := LangCodes.Matches(langs, PreferredOrder);
    if m == [] then langs else m
  }

  /** Whether some code of `codes` is one of `keys`. */
  predicate AnyIn(codes: seq<string>, keys: seq<string>) {
    exists c :: c in codes && c in keys
  }

  /** The recogniser's language: 'pt' iff the exact code 'pt' is available. */
  function WhisperLanguage(langs: seq<string>): string {
    if "pt" in langs then "pt" else "en"
  }

  /** The caption path is taken iff captions exist and are not excluded. */
  predicate UsesCaptions(m: Metadata, excludeCc: bool) {
    m.hasCc && !excludeCc
  }

  function VideoJob(url: string, out: Output, remote: nat -> Retry.Outcome): Job {
    Job(VideoOptions(out), url, Retry.Retry(remote, Retry.DefaultMaxAttempts, Retry.DefaultBaseWait, Retry.DefaultMaxWait), None)
  }

  function AudioJob(url: string, out: Output, remote: nat -> Retry.Outcome): Job {
    Job(AudioOptions(out), url, Retry.Retry(remote, Retry.DefaultMaxAttempts, Retry.DefaultBaseWait, Retry.DefaultMaxWait), None)
  }

  /** What `transcribe_audio(exclude_cc)` does with metadata `m`. On the
      speech path the recogniser runs only once the audio download returned. */
  function TranscriptionJob(m: Metadata, url: string, out: Output, excludeCc: bool, remote: nat -> Retry.Outcome): Job {
    var run := Retry.Retry(remote, Retry.DefaultMaxAttempts, Retry.DefaultBaseWait, Retry.DefaultMaxWait);
    if UsesCaptions(m, excludeCc) then
      var codes := SelectedCodes(m.langs);
      Job(CaptionOptions(out, AnyIn(codes, m.subs), AnyIn(codes, m.autos), codes), url, run, None)
    else
      Job(AudioOptions(out), url, run, if run.result.Done? then Some(WhisperLanguage(m.langs)) else None)
  }

  /** The selected codes are available codes, never empty when `langs` is
      not, and all of `langs` exactly when the matcher finds nothing. */
  lemma SelectedCodesFacts(langs: seq<string>)
    ensures forall c :: c in SelectedCodes(langs) ==> c in langs
    ensures |langs| > 0 ==> |SelectedCodes(langs)| > 0
    ensures LangCodes.Matches(langs, PreferredOrder) == [] ==> SelectedCodes(langs) == langs
  {
    forall c | c in SelectedCodes(langs) ensures c in langs {
      if LangCodes.Matches(langs, PreferredOrder) != [] {
        LangCodes.MatchesSound(langs, PreferredOrder, c);
      }
    }
  }

  /** With an exact 'pt' available, 'pt' is the first code asked for. */
  lemma SelectedCodesPortugueseFirst(langs: seq<string>)
    requires NoDup(langs) && "pt" in langs
    ensures |SelectedCodes(langs)| > 0 && SelectedCodes(langs)[0] == "pt"
  {
    LangCodes.MatchesSnoc(langs, [], "pt");
    assert [] + ["pt"] == ["pt"];
    assert PreferredOrder == ["pt"] + ["en"];
    LangCodes.MatchesSnoc(langs, ["pt"], "en");
  }

  /** On the caption path at least one of `writesubtitles` and
      `writeautomaticsub` is set, since every selected code is a key of one
      of the two dictionaries. */
  lemma CaptionFlagsCover(m: Metadata, url: string, out: Output, remote: nat -> Retry.Outcome)
    requires ValidMetadata(m) && m.hasCc
    ensures var j := TranscriptionJob(m, url, out, false, remote);
            j.options.CaptionOptions? && (j.options.writeSubtitles || j.options.writeAutomaticSub)
  {
    SelectedCodesFacts(m.langs);
    var c := SelectedCodes(m.langs)[0];
    assert c in m.langs;
  }

  /** The paths and flags of `transcribe_audio`: captions iff `has_cc` and not
      excluded, asking for the selected codes with each flag set iff some
      selected code is a key of that dictionary; otherwise the audio download
      followed, if it returned, by recognition in 'pt' iff the exact code
      'pt' is available (a lone 'pt-BR' gives 'en'). */
  lemma TranscriptionPaths(m: Metadata, url: string, out: Output, excludeCc: bool, remote: nat -> Retry.Outcome)
    ensures var j := TranscriptionJob(m, url, out, excludeCc, remote);
      && (j.options.CaptionOptions? <==> m.hasCc && !excludeCc)
      && (j.options.CaptionOptions? ==>
            && j.options.subtitlesLangs == SelectedCodes(m.langs)
            && (j.options.writeSubtitles <==> exists c :: c in SelectedCodes(m.langs) && c in m.subs)
            && (j.options.writeAutomaticSub <==> exists c :: c in SelectedCodes(m.langs) && c in m.autos)
            && j.whisperLanguage.None?)
      && (!j.options.CaptionOptions? ==>
            && j.options == AudioOptions(out)
            && (j.whisperLanguage.Some? <==> j.run.result.Done?)
            && (j.whisperLanguage == Some("pt") <==> j.run.result.Done? && "pt" in m.langs)
            && (j.run.result.Done? ==> j.whisperLanguage == Some(if "pt" in m.langs then "pt" else "en")))
      && j.url == url
      && j.run == Retry.Retry(remote, 6, 2, 300)
  {
  }

  // ----- The object -----

  class Downloader {
    var url: string
    var folderPath: string
    var filename: string
    var title: string
    var duration: int
    var subs: seq<string>
    var autos: seq<string>
    var langs: seq<string>
    var hasCc: bool
    /** The URLs handed to `extract_info` so far. */
    ghost var extractions: seq<string>

    function Meta(): Metadata
      reads this`title, this`duration, this`subs, this`autos, this`langs, this`hasCc
    {
      Metadata(title, duration, subs, autos, langs, hasCc)
    }

    ghost predicate Valid()
      reads this`title, this`duration, this`subs, this`autos, this`langs, this`hasCc
    {
      ValidMetadata(Meta())
    }

    function Out(): Output
      reads this
    {
      Output(folderPath, filename)
    }

    constructor (url: string, folderPath: string, filename: string)
      ensures Valid()
      ensures this.url == url && this.folderPath == folderPath && this.filename == filename
      ensures Meta() == Metadata("", 0, [], [], [], false)
      ensures extractions == []
    {
      this.url := url;
      this.folderPath := folderPath;
      this.filename := filename;
      title := "";
      duration := 0;
      subs := [];
      autos := [];
      langs := [];
      hasCc := false;
      extractions := [];
    }

    /** `check_url`: `probe` is what extracting the information of `url` gives, `None` when it raises. */
    method CheckUrl(probe: Option<Info>) returns (ok: bool, msg: CheckMessage)
      requires Valid()
      modifies this
      ensures Valid()
      ensures ok == ProbeSucceeds(old(url), probe) && msg == ProbeMessage(old(url), probe)
      ensures Meta() == Probed(old(url), probe, old(Meta()))
      ensures url == old(url) && folderPath == old(folderPath) && filename == old(filename)
      ensures extractions == if HasScheme(old(url)) then old(extractions) + [old(url)] else old(extractions)
    {
      ProbedValid(url, probe, Meta());
      if HasScheme(url) {
        extractions := extractions + [url];
        if probe.None? {
          return false, ExtractionFailed;
        }
        var info := probe.value;
        var t := info.title.GetOr(UnknownTitle);
        t := Sanitize(t);
        var s := info.subtitles.GetOr([]);
        var a := info.automaticCaptions.GetOr([]);
        var l := KeyUnion(s, a);
        title, duration, subs, autos, langs, hasCc := t, info.duration.GetOr(0), s, a, l, |l| > 0;
        return true, Extracted;
      } else {
        return false, BadScheme;
      }
    }

    /** `download_video`. */
    method DownloadVideo(remote: nat -> Retry.Outcome) returns (job: Job)
      ensures job == VideoJob(url, Out(), remote)
    {
      var run := Retry.DownloadWithRetries(remote, Retry.DefaultMaxAttempts, Retry.DefaultBaseWait, Retry.DefaultMaxWait);
      job := Job(VideoOptions(Output(folderPath, filename)), url, run, None);
    }

    /** `download_audio`. */
    method DownloadAudio(remote: nat -> Retry.Outcome) returns (job: Job)
      ensures job == AudioJob(url, Out(), remote)
    {
      var run := Retry.DownloadWithRetries(remote, Retry.DefaultMaxAttempts, Retry.DefaultBaseWait, Retry.DefaultMaxWait);
      job := Job(AudioOptions(Output(folderPath, filename)), url, run, None);
    }

    /** `transcribe_audio(exclude_cc)`; writing the transcript file is not modelled. */
    method TranscribeAudio(excludeCc: bool, remote: nat -> Retry.Outcome) returns (job: Job)
      ensures job == TranscriptionJob(Meta(), url, Out(), excludeCc, remote)
    {
      if hasCc && !excludeCc {
        var selected := LangCodes.FindMatchingLangCodes(langs, PreferredOrder);
        if selected == [] {
          selected := langs;
        }
        var manual := exists c :: c in selected && c in subs;
        var auto := exists c :: c in selected && c in autos;
        var run := Retry.DownloadWithRetries(remote, Retry.DefaultMaxAttempts, Retry.DefaultBaseWait, Retry.DefaultMaxWait);
        job := Job(CaptionOptions(Output(folderPath, filename), manual, auto, selected), url, run, None);
      } else {
        var audio := DownloadAudio(remote);
        job := audio;
        if audio.run.result.Done? {
          job := audio.(whisperLanguage := Some(WhisperLanguage(langs)));
        }
      }
    }
  }
}
