/**
 * The `ip` command of cmd/ip.go: fetch the trace body, parse the address
 * out of it, and either report why there is none or print it and ask for it
 * to be copied to the clipboard. The HTTP request and the clipboard write
 * are outside the model; their outcomes arrive as parameters, and what the
 * command does is recorded as a sequence of events.
 */
module IpCommand {
  import opened Trace

  /** What the HTTP GET of the trace endpoint and the read of its body produced. */
  datatype FetchResult = TransportError(reason: string) | Body(text: string)

  /** What the clipboard library's write returned. */
  datatype ClipboardWrite = Written | WriteFailed(reason: string)

  /** One observable step: a line printed to standard output, or a clipboard write requested. */
  datatype Event = Println(line: string) | CopyRequested(text: string)

  const FetchErrorMessage: string := "error fetching ip address."
  const NotConnectedMessage: string := "Couldn't find the ip address. Are you sure you are connected to network?"
  const CopiedMessage: string := "IP address copied to clipboard!"

  /** `fmt.Println("ip address:", ip)`: the two operands separated by one space. */
  function AddressLine(ip: string): string
  {
    "ip address: " + ip
  }

  /** `fmt.Println("Error copying to clipboard:", err)`. */
  function ClipboardErrorLine(reason: string): string
  {
    "Error copying to clipboard: " + reason
  }

  /** The texts of the clipboard writes among `events`, in order. */
  function Copies(events: seq<Event>): (texts: seq<string>)
    ensures |texts| <= |events|
    ensures forall t :: t in texts <==> CopyRequested(t) in events
  {
    if events == [] then []
    else
      (if events[0].CopyRequested? then [events[0].text] else []) + Copies(events[1..])
  }

  /** Whether the command ends by printing and copying an address. */
  predicate Resolved(fetch: FetchResult)
  {
    fetch.Body? && ParseTrace(fetch.text) != ""
  }

  /**
   * `getIpAddress`: a transport error comes back as the error with an empty
   * address; a body that was read comes back as its parsed address and no
   * error, "" included.
   */
  method GetIpAddress(fetch: FetchResult) returns (ipAddress: string, err: Option<string>)
    ensures err.Some? <==> fetch.TransportError?
    ensures fetch.TransportError? ==> ipAddress == "" && err.value == fetch.reason
    ensures fetch.Body? ==> ipAddress == ParseTrace(fetch.text)
    ensures Newline !in ipAddress
  {
    match fetch
    case TransportError(reason) =>
      return "", Some(reason);
    case Body(text) =>
      ipAddress := ParseBody(text);
      err := None;
  }

  /**
   * `copyToClipboard`: request the write, then report how it went. A failed
   * write is reported and goes no further.
   */
  method CopyToClipboard(ipAddress: string, write: ClipboardWrite) returns (events: seq<Event>)
    ensures Copies(events) == [ipAddress]
    ensures |events| == 2 && events[0] == CopyRequested(ipAddress)
    ensures events[1] == Println(if write.Written? then CopiedMessage else ClipboardErrorLine(write.reason))
  {
    events := [CopyRequested(ipAddress)];
    if write.WriteFailed? {
      events := events + [Println(ClipboardErrorLine(write.reason))];
      return;
    }
    events := events + [Println(CopiedMessage)];
  }

  /**
   * `printAndCopyIpAddress`: a transport error prints the fetch-failure line
   * and stops; an empty address prints the not-connected line and stops;
   * otherwise the address is printed and then copied, exactly once.
   */
  method PrintAndCopyIpAddress(fetch: FetchResult, write: ClipboardWrite) returns (events: seq<Event>)
    ensures fetch.TransportError? ==> events == [Println(FetchErrorMessage)]
    ensures fetch.Body? && ParseTrace(fetch.text) == "" ==> events == [Println(NotConnectedMessage)]
    ensures Resolved(fetch) ==>
              |events| == 3 &&
              events[0] == Println(AddressLine(ParseTrace(fetch.text))) &&
              events[1] == CopyRequested(ParseTrace(fetch.text)) &&
              events[2] == Println(if write.Written? then CopiedMessage else ClipboardErrorLine(write.reason))
    ensures Copies(events) == if Resolved(fetch) then [ParseTrace(fetch.text)] else []
    ensures forall i :: 0 <= i < |events| && events[i].CopyRequested? ==>
              0 < i && events[i - 1] == Println(AddressLine(events[i].text))
  {
    var ipAddress, err := GetIpAddress(fetch);
    if err.Some? {
      events := [Println(FetchErrorMessage)];
      return;
    }

    if ipAddress == "" {
      events := [Println(NotConnectedMessage)];
      return;
    }

    events := [Println(AddressLine(ipAddress))];

    var copied := CopyToClipboard(ipAddress, write);
    events := events + copied;
  }
}
