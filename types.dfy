/** Values shared by every stage of the scanner: the per-file and per-target
    verdicts, the replies of the two external oracles (the model endpoint and
    the JSON parser), and the configuration constants of code/send.py. */
module Types {

  datatype Option<+T> = None | Some(value: T)

  /** The outcome of a step that the source can abort with an uncaught
      exception (a `.get` on a non-object reply, a missing `"reason"` key). */
  datatype Outcome<+T> = Done(value: T) | Crash

  /** A result dictionary as the scanner sees it. `reason` is `None` when the
      key is absent; `isMalicious` is the truthiness of `result.get("is_malicious")`,
      so an absent key reads as false. */
  datatype Verdict = Verdict(reason: Option<string>, isMalicious: bool)

  /** One entry of a directory's file list: its base name and its decoded
      text, or `None` when opening or reading it raises. */
  datatype FileEntry = FileEntry(name: string, content: Option<string>)

  /** What the model endpoint gives back for one code sample: the stripped
      reply text, or the message of the exception the call raised. */
  datatype CallResult = Replied(text: string) | CallFailed(error: string)

  /** What `json.loads` produced: a JSON object, read as a result dictionary,
      or any other JSON value (array, string, number, ...). */
  datatype Reply = NonObject | Object(verdict: Verdict)

  /** `json.loads` either decodes or raises `JSONDecodeError`. */
  datatype ParseOutcome = Decoded(reply: Reply) | DecodeError

  /** `os.walk` output for one scan target: the file lists of its directories,
      in the order the walk yields them. */
  type FileLists = seq<seq<FileEntry>>

  /** Index of the first occurrence of `c` in `s`, or -1 (`str.find`). */
  function FirstIndexOf(s: string, c: char): (i: int)
    ensures -1 <= i < |s|
    ensures 0 <= i ==> s[i] == c
    ensures forall k :: 0 <= k < |s| && (i < 0 || k < i) ==> s[k] != c
  {
    if s == [] then -1
    else if s[0] == c then 0
    else var j := FirstIndexOf(s[1..], c); if j < 0 then -1 else j + 1
  }

  /** Index of the last occurrence of `c` in `s`, or -1 (`str.rfind`). */
  function LastIndexOf(s: string, c: char): (i: int)
    ensures -1 <= i < |s|
    ensures 0 <= i ==> s[i] == c
    ensures forall k :: i < k < |s| ==> s[k] != c
  {
    if s == [] then -1
    else if s[|s| - 1] == c then |s| - 1
    else LastIndexOf(s[..|s| - 1], c)
  }

  /** Largest number of characters sent to the model per file. */
  const MaxContentLength: nat := 100000

  /** Reason of the fixed verdict returned when no file is flagged. */
  const NotDetectedReason: string := "未检测到恶意代码"

  /** Reason of the fallback verdict when the reply cannot be decoded. */
  const ParseFailedReason: string := "未能解析模型输出，视为无恶意"

  /** Prefix of the reason recorded when the model call raises. */
  const CallFailedPrefix: string := "检测失败: "

  /** The verdict `scan_path` returns when it exhausts the walk. */
  const NotDetected: Verdict := Verdict(Some(NotDetectedReason), false)
}
