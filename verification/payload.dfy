/** The pure part of `create_task`: which fields go into the request body of a new task.
    The POST itself is not modelled. */
module Payload {
  import opened Wrappers

  /** The JSON body of a create-task request; an absent optional field is `None`. */
  datatype TaskPayload = TaskPayload(
    content: string,
    projectId: int,
    labels: seq<string>,
    priority: int,
    description: Option<string>,
    dueDatetime: Option<string>,
    dueLang: Option<string>,
    sectionId: Option<string>)

  /** The keys the JSON object carries. */
  function Keys(p: TaskPayload): set<string> {
    {"content", "project_id", "labels", "priority"}
    + (if p.description.Some? then {"description"} else {})
    + (if p.dueDatetime.Some? then {"due_datetime"} else {})
    + (if p.dueLang.Some? then {"due_lang"} else {})
    + (if p.sectionId.Some? then {"section_id"} else {})
  }

  /** `create_task` raises when the section has no (truthy) id in the project's map. */
  datatype TaskError = SectionNotFound(name: string)

  /** The language tag sent with every due date-time. */
  const DueLang := "en"

  /** `create_task` up to the POST: `Success(None)` is the skipped row, `Success(Some(p))`
      the body that would be sent, `Failure` the missing-section error. Section ids are
      strings; the empty id is the falsy one. */
  function BuildPayload(projectId: int, sections: map<string, string>, title: string, labels: seq<string>,
                        sectionName: Option<string>, dueIso: Option<string>, description: string, priority: int)
    : (r: Result<Option<TaskPayload>, TaskError>)
    ensures r == Success(None) <==> title == []
    ensures r.Failure? <==>
      title != [] && Truthy(sectionName) && (sectionName.value !in sections || sections[sectionName.value] == [])
    ensures r.Failure? ==> r.error == SectionNotFound(sectionName.value)
    ensures r.Success? && r.value.Some? ==>
      var p := r.value.value;
      && {"content", "project_id", "labels", "priority"} <= Keys(p)
      && p.content == title && p.projectId == projectId && p.labels == labels && p.priority == priority
      && ("description" in Keys(p) <==> description != [])
      && (p.description.Some? ==> p.description.value == description)
      && ("due_datetime" in Keys(p) <==> "due_lang" in Keys(p))
      && ("due_datetime" in Keys(p) <==> Truthy(dueIso))
      && (p.dueDatetime.Some? ==> p.dueDatetime == dueIso && p.dueLang == Some(DueLang))
      && ("section_id" in Keys(p) <==> Truthy(sectionName))
      && (p.sectionId.Some? ==> sectionName.value in sections && p.sectionId == Some(sections[sectionName.value]) && p.sectionId.value != [])
    ensures r.Success? && r.value.Some? ==>
      var p := r.value.value;
      && p.description == (if description != [] then Some(description) else None)
      && p.dueDatetime == (if Truthy(dueIso) then dueIso else None)
      && p.sectionId == (if Truthy(sectionName) then Some(sections[sectionName.value]) else None)
  {
    if title == [] then Success(None)
    else
      var base := TaskPayload(title, projectId, labels, priority, None, None, None, None);
      var withDescription := if description != [] then base.(description := Some(description)) else base;
      var withDue :=
        if Truthy(dueIso) then withDescription.(dueDatetime := dueIso, dueLang := Some(DueLang))
        else withDescription;
      if Truthy(sectionName) then
        var sid := if sectionName.value in sections then sections[sectionName.value] else [];
        if sid == [] then Failure(SectionNotFound(sectionName.value))
        else Success(Some(withDue.(sectionId := Some(sid))))
      else
        Success(Some(withDue))
  }
}
